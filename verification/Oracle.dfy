/** The word-by-word oracle protocol between a 32-bit guest and a 64-bit host. */
module Oracle {
  import opened Numbers

  const WORD: int := 0x1_0000_0000
  const UART_QUERY_ID: u32 := 0xFFFF_FFFF
  const DISCONNECT_ORACLE_QUERY_ID: u32 := 0x4001_0001

  /** A query as the responders see it: its ID and its 64-bit words. */
  type Query = (u32, seq<u64>)

  // ----- what the protocol is to achieve

  /** 32-bit words packed little-endian into 64-bit words; an odd tail is zero-extended. */
  function Pack(words: seq<u32>): (packed: seq<u64>)
    ensures |packed| == (|words| + 1) / 2
  {
    if |words| == 0 then []
    else if |words| == 1 then [words[0]]
    else [words[0] + words[1] * WORD] + Pack(words[2..])
  }

  /** Each 64-bit word as its low and its high half. */
  function Unpack(response: seq<u64>): (words: seq<u32>)
    ensures |words| == 2 * |response|
  {
    if response == [] then [] else [response[0] % WORD, response[0] / WORD] + Unpack(response[1..])
  }

  lemma {:induction false} PackUnpack(response: seq<u64>)
    ensures Pack(Unpack(response)) == response
  {
    if response != [] {
      PackUnpack(response[1..]);
      assert Unpack(response)[2..] == Unpack(response[1..]);
    }
  }

  lemma {:induction false} UnpackPack(words: seq<u32>)
    ensures Unpack(Pack(words)) == words + (if |words| % 2 == 0 then [] else [0])
  {
    if |words| >= 2 {
      UnpackPack(words[2..]);
      assert Pack(words)[1..] == Pack(words[2..]);
      assert words == [words[0], words[1]] + words[2..];
    } else if |words| == 1 {
      assert Pack(words)[1..] == [];
    }
  }

  /** Room for a high half: the last 64-bit word has only its low half. */
  predicate HalfFilled(buffer: seq<u64>) { buffer != [] && buffer[|buffer| - 1] < WORD }

  /** One more word: a new low half, or the high half of the last 64-bit word. */
  function Appended(buffer: seq<u64>, writeLow: bool, w: u32): seq<u64>
    requires writeLow || HalfFilled(buffer)
  {
    if writeLow then buffer + [w]
    else buffer[..|buffer| - 1] + [buffer[|buffer| - 1] + w * WORD]
  }

  lemma AppendedBehind(first: u64, rest: seq<u64>, writeLow: bool, w: u32)
    requires writeLow || HalfFilled(rest)
    ensures writeLow || HalfFilled([first] + rest)
    ensures Appended([first] + rest, writeLow, w) == [first] + Appended(rest, writeLow, w)
  {
    if !writeLow {
      assert ([first] + rest)[|rest|] == rest[|rest| - 1];
    }
  }

  lemma {:induction false} PackAppend(words: seq<u32>, w: u32)
    ensures |words| % 2 == 1 ==> HalfFilled(Pack(words))
    ensures Pack(words + [w]) == Appended(Pack(words), |words| % 2 == 0, w)
  {
    if |words| >= 2 {
      var first, rest := words[0] + words[1] * WORD, words[2..];
      PackAppend(rest, w);
      assert |words| % 2 == |rest| % 2;
      AppendedBehind(first, Pack(rest), |words| % 2 == 0, w);
      assert Pack(words) == [first] + Pack(rest);
      assert (words + [w])[2..] == rest + [w];
      assert Pack(words + [w]) == [first] + Pack(rest + [w]);
    } else if |words| == 1 {
      assert (words + [w])[2..] == [];
    } else {
      assert words + [w] == [w];
    }
  }

  // ----- the host

  datatype QueryBuffer = QueryBuffer(queryType: u32, remaining: Option<nat>, writeLow: bool, buffer: seq<u64>) {
    /** Waiting for the length or for more words; a pending high half has its low half in place. */
    ghost predicate Valid()
    {
      && (remaining.Some? ==> remaining.value > 0)
      && (writeLow || HalfFilled(buffer))
    }

    /** The buffer after one word, and whether the query is complete. */
    function Write(value: u32): (r: (QueryBuffer, bool))
      requires Valid()
      ensures !r.1 ==> r.0.Valid()
    {
      if remaining.Some? then
        var left := remaining.value - 1;
        (QueryBuffer(queryType, Some(left), !writeLow, Appended(buffer, writeLow, value)), left == 0)
      else
        (this.(remaining := Some(value)), value == 0)
    }
  }

  /** The buffer of a query of which `words` have been received and `left` more are expected. */
  ghost function Receiving(id: u32, words: seq<u32>, left: nat): QueryBuffer
  {
    QueryBuffer(id, Some(left), |words| % 2 == 0, Pack(words))
  }

  lemma {:induction false} ReceivingStep(id: u32, words: seq<u32>, left: nat, w: u32)
    requires left > 0 && Receiving(id, words, left).Valid()
    ensures Receiving(id, words, left).Write(w) == (Receiving(id, words + [w], left - 1), left == 1)
  {
    PackAppend(words, w);
  }

  /** What reads deliver: a length, a high half left over, and the words of the answer, in this order. */
  ghost function Pending(length: Option<u32>, high: Option<u32>, it: Option<seq<u64>>): seq<u32>
  {
    (if length.Some? then [length.value] else [])
    + (if high.Some? then [high.value] else [])
    + (if it.Some? then Unpack(it.value) else [])
  }

  lemma PopLength(length: u32, high: Option<u32>, it: Option<seq<u64>>)
    ensures Pending(Some(length), high, it) == [length] + Pending(None, high, it)
  {
  }

  lemma PopHigh(high: u32, it: Option<seq<u64>>)
    ensures Pending(None, Some(high), it) == [high] + Pending(None, None, it)
  {
  }

  lemma {:induction false} PopItem(response: seq<u64>)
    requires response != []
    ensures var rest := if |response| == 1 then None else Some(response[1..]);
      Pending(None, None, Some(response)) == [response[0] % WORD] + Pending(None, Some(response[0] / WORD), rest)
  {
  }

  class Host {
    var queryBuffer: Option<QueryBuffer>
    var currentQueryId: Option<u32>
    var currentIterator: Option<seq<u64>>
    var lenToIndicate: Option<u32>
    var highHalf: Option<u32>
    var connected: bool
    /** The queries answered so far; responders may remember them. */
    var processed: seq<Query>

    const supported: set<u32>
    const respond: (seq<Query>, Query) -> seq<u64>

    /**
     * A host with the given responders, each with the query IDs it serves; the code asserts
     * that no two serve the same. Without any responder it stays disconnected.
     */
    constructor (responders: seq<set<u32>>, respond: (seq<Query>, Query) -> seq<u64>)
      requires forall i, j :: 0 <= i < j < |responders| ==> responders[i] !! responders[j]
      ensures Valid() && Idle() && processed == [] && this.respond == respond
      ensures connected <==> responders != []
      ensures forall id :: id in supported <==> exists i :: 0 <= i < |responders| && id in responders[i]
    {
      queryBuffer, currentQueryId, currentIterator, lenToIndicate, highHalf := None, None, None, None, None;
      this.respond, processed := respond, [];
      var served, i := {}, 0;
      while i < |responders|
        invariant 0 <= i <= |responders|
        invariant forall id :: id in served <==> exists j :: 0 <= j < i && id in responders[j]
      {
        served := served + responders[i];
        i := i + 1;
      }
      supported, connected := served, responders != [];
    }

    ghost predicate Valid()
      reads this
    {
      && (currentIterator.Some? <==> currentQueryId.Some?)
      && (currentIterator.Some? ==> |currentIterator.value| > 0)
      && (queryBuffer.Some? ==> Output() == [] && queryBuffer.value.Valid())
    }

    ghost predicate Idle()
      reads this
    {
      && queryBuffer == None && currentQueryId == None && currentIterator == None
      && lenToIndicate == None && highHalf == None
    }

    /** The words that reads will still deliver. */
    ghost function Output(): seq<u32>
      reads this
    {
      Pending(lenToIndicate, highHalf, currentIterator)
    }

    /** Delivers the next word; without one the host panics. A disconnected host delivers zeros. */
    method Read() returns (value: Option<u32>)
      requires Valid()
      modifies this
      ensures Valid() && connected == old(connected) && queryBuffer == old(queryBuffer) && processed == old(processed)
      ensures !connected ==> value == Some(0) && Output() == old(Output())
      ensures connected && old(Output()) == [] ==> value == None && Output() == []
      ensures connected && old(Output()) != [] ==> value == Some(old(Output())[0]) && Output() == old(Output())[1..]
    {
      if !connected {
        return Some(0);
      }
      if lenToIndicate.Some? {
        PopLength(lenToIndicate.value, highHalf, currentIterator);
        value := lenToIndicate;
        lenToIndicate := None;
        return;
      }
      if highHalf.Some? {
        PopHigh(highHalf.value, currentIterator);
        value := highHalf;
        highHalf := None;
        return;
      }
      if currentIterator.None? {
        return None;
      }
      var next := currentIterator.value[0];
      var rest := currentIterator.value[1..];
      PopItem(currentIterator.value);
      currentIterator := Some(rest);
      if rest == [] {
        currentQueryId, currentIterator := None, None;
      }
      highHalf := Some(next / WORD);
      value := Some(next % WORD);
    }

    /** Nothing left to deliver is the idle state. */
    lemma DrainedIsIdle()
      requires Valid() && queryBuffer.None? && Output() == []
      ensures Idle()
    {
    }

    /** Accepts one word; `ok` is false where the host panics. */
    method Write(value: u32) returns (ok: bool)
      requires Valid()
      modifies this
      ensures old(queryBuffer).None? && (old(connected) || value == UART_QUERY_ID) ==>
        && ok && Valid() && queryBuffer == Some(QueryBuffer(value, None, true, [])) && Output() == []
        && connected == old(connected) && processed == old(processed)
      ensures old(queryBuffer).None? && !old(connected) && value != UART_QUERY_ID ==>
        ok && Valid() && Idle() && !connected && processed == old(processed)
      ensures old(queryBuffer).Some? && !old(queryBuffer).value.Write(value).1 ==>
        && ok && Valid() && queryBuffer == Some(old(queryBuffer).value.Write(value).0)
        && connected == old(connected) && processed == old(processed)
      ensures old(queryBuffer).Some? && old(queryBuffer).value.Write(value).1 ==>
        var b := old(queryBuffer).value.Write(value).0;
        Answers(b.queryType, b.buffer, ok, old(connected), old(processed))
    {
      currentQueryId, currentIterator, lenToIndicate, highHalf := None, None, None, None;
      ok := true;
      if queryBuffer.Some? {
        var (next, complete) := queryBuffer.value.Write(value);
        queryBuffer := Some(next);
        if complete {
          ok := ProcessBufferedQuery();
        }
      } else if connected || value == UART_QUERY_ID {
        queryBuffer := Some(QueryBuffer(value, None, true, []));
      }
    }

    /** The state after a complete query was handed to its responder. */
    ghost predicate Answers(id: u32, words: seq<u64>, ok: bool, wasConnected: bool, before: seq<Query>)
      reads this
    {
      if id == DISCONNECT_ORACLE_QUERY_ID then
        ok && Valid() && Idle() && !connected && processed == before
      else if id !in supported then
        !ok && processed == before
      else
        var response := respond(before, (id, words));
        && ok && Valid() && queryBuffer == None && connected == wasConnected && processed == before + [(id, words)]
        && Output() == [2 * |response| % WORD] + Unpack(response)
    }

    method ProcessBufferedQuery() returns (ok: bool)
      requires queryBuffer.Some? && currentIterator == None && currentQueryId == None && lenToIndicate == None
      requires highHalf == None
      modifies this
      ensures var b := old(queryBuffer).value; Answers(b.queryType, b.buffer, ok, old(connected), old(processed))
    {
      var id, words := queryBuffer.value.queryType, queryBuffer.value.buffer;
      queryBuffer := None;
      ok := true;
      if id == DISCONNECT_ORACLE_QUERY_ID {
        connected := false;
      } else if id !in supported {
        ok := false;
      } else {
        var response := respond(processed, (id, words));
        processed := processed + [(id, words)];
        var resultLen := |response| * 2;
        lenToIndicate := Some(resultLen % WORD);
        if resultLen > 0 {
          currentQueryId, currentIterator := Some(id), Some(response);
        }
      }
    }
  }

  /** The same along an input: after word i the buffer holds the first i + 1 words. */
  lemma {:induction false} ReceivingNext(id: u32, input: seq<u32>, i: nat)
    requires i < |input| && Receiving(id, input[..i], |input| - i).Valid()
    ensures Receiving(id, input[..i], |input| - i).Write(input[i])
         == (Receiving(id, input[..i + 1], |input| - i - 1), i + 1 == |input|)
    ensures i + 1 == |input| ==> Receiving(id, input[..i + 1], 0).buffer == Pack(input)
  {
    ReceivingStep(id, input[..i], |input| - i, input[i]);
    assert input[..i] + [input[i]] == input[..i + 1];
    if i + 1 == |input| {
      assert input[..i + 1] == input;
    }
  }

  // ----- the guest

  /** The guest's view of an answer: it asks the host for `remaining` more words. */
  class OracleIterator {
    const host: Host
    var remaining: u32

    constructor (host: Host, remaining: u32)
      ensures this.host == host && this.remaining == remaining
    {
      this.host, this.remaining := host, remaining;
    }

    /** The outer option is a panic of the host, the inner one the end of the answer. */
    method Next() returns (item: Option<Option<u32>>)
      requires host.Valid()
      modifies this, host
      ensures host.Valid() && host.connected == old(host.connected) && host.queryBuffer == old(host.queryBuffer)
      ensures host.processed == old(host.processed)
      ensures old(remaining) == 0 ==> item == Some(None) && remaining == 0 && host.Output() == old(host.Output())
      ensures old(remaining) > 0 && host.connected && old(host.Output()) != [] ==>
        && item == Some(Some(old(host.Output())[0])) && remaining == old(remaining) - 1
        && host.Output() == old(host.Output())[1..]
    {
      if remaining == 0 {
        return Some(None);
      }
      remaining := remaining - 1;
      var word := host.Read();
      item := if word.Some? then Some(Some(word.value)) else None;
    }
  }

  /** A host ready for a query: connected and not in the middle of one. An unread answer may be left over. */
  ghost predicate Ready(host: Host)
    reads host
  {
    host.Valid() && host.connected && host.queryBuffer == None
  }

  ghost predicate Served(host: Host, id: u32) { id in host.supported && id != DISCONNECT_ORACLE_QUERY_ID }

  /** The words of a query as they go over the wire. */
  ghost function QueryWords(id: u32, input: seq<u32>): seq<u32>
    requires |input| < WORD
  {
    [id, |input|] + input
  }

  /** Whether a word of a query could be taken for the one query that a disconnected host accepts. */
  ghost predicate MentionsUart(id: u32, input: seq<u32>)
    requires |input| < WORD
  {
    UART_QUERY_ID in QueryWords(id, input)
  }

  // ----- what a disconnected host makes of the words it is sent

  /** Waiting for the console ID, or in the middle of a console query, with the queries answered so far. */
  datatype Listening = Panicked | Listening(buffer: Option<QueryBuffer>, processed: seq<Query>) {
    ghost predicate Valid()
    {
      Listening? && buffer.Some? ==> buffer.value.Valid() && buffer.value.queryType == UART_QUERY_ID
    }

    ghost function Hears(served: bool, w: u32): (l: Listening)
      requires Valid()
      ensures l.Valid()
    {
      if Panicked? then this
      else if buffer.None? then
        if w == UART_QUERY_ID then Listening(Some(QueryBuffer(w, None, true, [])), processed) else this
      else
        var (b, complete) := buffer.value.Write(w);
        if !complete then Listening(Some(b), processed)
        else if served then Listening(None, processed + [(UART_QUERY_ID, b.buffer)])
        else Panicked
    }
  }

  ghost function Overhears(before: seq<Query>, served: bool, words: seq<u32>): (l: Listening)
    ensures l.Valid()
  {
    if words == [] then Listening(None, before)
    else Overhears(before, served, words[..|words| - 1]).Hears(served, words[|words| - 1])
  }

  lemma {:induction false} OverhearsNext(before: seq<Query>, served: bool, words: seq<u32>, w: u32)
    ensures Overhears(before, served, words + [w]) == Overhears(before, served, words).Hears(served, w)
  {
    assert (words + [w])[..|words|] == words;
  }

  lemma {:induction false} PanicStays(before: seq<Query>, served: bool, words: seq<u32>, rest: seq<u32>)
    requires Overhears(before, served, words).Panicked?
    ensures Overhears(before, served, words + rest).Panicked?
  {
    if rest == [] {
      assert words + rest == words;
    } else {
      var n := |rest| - 1;
      PanicStays(before, served, words, rest[..n]);
      OverhearsNext(before, served, words + rest[..n], rest[n]);
      assert words + rest[..n] + [rest[n]] == words + rest;
    }
  }

  /** Words leave no trace if and only if none of them is the console ID. */
  lemma {:induction false} TracelessExactly(before: seq<Query>, served: bool, words: seq<u32>)
    ensures Overhears(before, served, words) == Listening(None, before) <==> UART_QUERY_ID !in words
    ensures
      var l := Overhears(before, served, words);
      l.Listening? ==> |before| <= |l.processed| && (|before| == |l.processed| ==> l.processed == before)
  {
    if words != [] {
      var n := |words| - 1;
      TracelessExactly(before, served, words[..n]);
      assert words == words[..n] + [words[n]];
    }
  }

  /** The state of a disconnected host is exactly what listening to the words gives. */
  ghost predicate Heard(host: Host, words: seq<u32>, ok: bool, before: seq<Query>)
    reads host
  {
    var l := Overhears(before, UART_QUERY_ID in host.supported, words);
    if l.Panicked? then !ok
    else
      && ok && host.Valid() && !host.connected && host.queryBuffer == l.buffer && host.processed == l.processed
      && (l.processed == before ==> host.Output() == [])
  }

  /** The query left no trace in the host. */
  ghost predicate Ignored(host: Host, before: seq<Query>)
    reads host
  {
    host.Idle() && host.processed == before
  }

  lemma IgnoredExactly(host: Host, words: seq<u32>, before: seq<Query>)
    requires Heard(host, words, true, before)
    ensures Ignored(host, before) <==> UART_QUERY_ID !in words
  {
    TracelessExactly(before, UART_QUERY_ID in host.supported, words);
    if UART_QUERY_ID !in words {
      host.DrainedIsIdle();
    }
  }

  /** A connected host after the ID, the length and i of the words. */
  ghost predicate Received(host: Host, id: u32, input: seq<u32>, i: nat, ok: bool, before: seq<Query>)
    requires i <= |input|
    reads host
  {
    if i < |input| then
      && ok && host.Valid() && host.connected && host.processed == before
      && host.queryBuffer == Some(Receiving(id, input[..i], |input| - i))
    else host.Answers(id, Pack(input), ok, true, before)
  }

  /**
   * Sends a query; `None` is a panic of the host. A responder receives exactly the packed
   * words, and what remains to be read is exactly its answer, whatever was left over before.
   * Only a query that nobody serves panics. A disconnected host gives empty answers, and
   * ignores a query if and only if none of its words is the ID of the console query.
   */
  method RawQuery(host: Host, id: u32, input: seq<u32>) returns (it: Option<OracleIterator>)
    requires host.Valid() && host.queryBuffer == None && |input| < WORD
    modifies host
    ensures it.Some? ==> fresh(it.value) && it.value.host == host && host.Valid()
    ensures old(host.connected) ==> (it.None? <==> id !in host.supported && id != DISCONNECT_ORACLE_QUERY_ID)
    ensures old(host.connected) && Served(host, id) ==>
      var response := host.respond(old(host.processed), (id, Pack(input)));
      && it.Some? && Ready(host) && host.processed == old(host.processed) + [(id, Pack(input))]
      && it.value.remaining == 2 * |response| % WORD && host.Output() == Unpack(response)
    ensures old(host.connected) && id == DISCONNECT_ORACLE_QUERY_ID ==>
      it.Some? && it.value.remaining == 0 && !host.connected && host.Idle() && host.processed == old(host.processed)
    ensures !old(host.connected) ==>
      && Heard(host, QueryWords(id, input), it.Some?, old(host.processed))
      && (it.Some? ==> it.value.remaining == 0)
      && (it.Some? && Ignored(host, old(host.processed)) <==> !MentionsUart(id, input))
  {
    var ok := SendQuery(host, id, input);
    if !old(host.connected) {
      TracelessExactly(old(host.processed), UART_QUERY_ID in host.supported, QueryWords(id, input));
    }
    if !ok {
      return None;
    }
    var length := host.Read();
    var answer := new OracleIterator(host, length.value);
    it := Some(answer);
    if !host.connected && !old(host.connected) {
      IgnoredExactly(host, QueryWords(id, input), old(host.processed));
    }
  }

  /** Sends the ID, the length and the words. */
  method SendQuery(host: Host, id: u32, input: seq<u32>) returns (ok: bool)
    requires host.Valid() && host.queryBuffer == None && |input| < WORD
    modifies host
    ensures old(host.connected) ==> host.Answers(id, Pack(input), ok, true, old(host.processed))
    ensures !old(host.connected) ==> Heard(host, QueryWords(id, input), ok, old(host.processed))
  {
    ok := SendHeader(host, id, |input|, input);
    if ok && input != [] {
      ok := SendWords(host, id, input, old(host.processed));
    } else if input == [] {
      assert QueryWords(id, input) == [id, |input|];
    } else {
      PanicStays(old(host.processed), UART_QUERY_ID in host.supported, [id, |input|], input);
    }
  }

  /** Sends the ID and the length. */
  method SendHeader(host: Host, id: u32, length: u32, ghost input: seq<u32>) returns (ok: bool)
    requires host.Valid() && host.queryBuffer == None && length == |input|
    modifies host
    ensures old(host.connected) ==> Received(host, id, input, 0, ok, old(host.processed)) && (input != [] ==> ok)
    ensures !old(host.connected) ==> Heard(host, [id, length], ok, old(host.processed))
  {
    assert Pack([]) == [];
    ghost var before, served := host.processed, UART_QUERY_ID in host.supported;
    OverhearsNext(before, served, [], id);
    OverhearsNext(before, served, [id], length);
    assert [] + [id] == [id] && [id] + [length] == [id, length];
    ok := host.Write(id);
    ok := host.Write(length);
  }

  /** Sends the words one by one after the ID and the length, unless the host panics. */
  method SendWords(host: Host, ghost id: u32, input: seq<u32>, ghost before: seq<Query>) returns (ok: bool)
    requires input != [] && |input| < WORD
    requires if host.connected then Received(host, id, input, 0, true, before)
             else Heard(host, [id, |input|], true, before)
    modifies host
    ensures old(host.connected) ==> host.Answers(id, Pack(input), ok, true, before)
    ensures !old(host.connected) ==> Heard(host, QueryWords(id, input), ok, before)
  {
    ok := true;
    var i := 0;
    assert [id, |input|] + input[..0] == [id, |input|];
    while i < |input| && ok
      invariant 0 <= i <= |input|
      invariant old(host.connected) ==> Received(host, id, input, i, ok, before)
      invariant !old(host.connected) ==> Heard(host, [id, |input|] + input[..i], ok, before)
      invariant ok && i < |input| ==> host.connected == old(host.connected)
    {
      assert [id, |input|] + input[..i + 1] == [id, |input|] + input[..i] + [input[i]];
      ok := SendWord(host, id, input, i, [id, |input|] + input[..i], before);
      i := i + 1;
    }
    assert [id, |input|] + input[..i] + input[i..] == QueryWords(id, input);
    if ok {
      assert [id, |input|] + input[..i] == QueryWords(id, input);
    } else if !old(host.connected) {
      PanicStays(before, UART_QUERY_ID in host.supported, [id, |input|] + input[..i], input[i..]);
    }
  }

  method SendWord(host: Host, ghost id: u32, input: seq<u32>, i: nat, ghost words: seq<u32>, ghost before: seq<Query>)
    returns (ok: bool)
    requires i < |input|
    requires if host.connected then Received(host, id, input, i, true, before) else Heard(host, words, true, before)
    modifies host
    ensures old(host.connected) ==> Received(host, id, input, i + 1, ok, before)
    ensures !old(host.connected) ==> Heard(host, words + [input[i]], ok, before)
  {
    if host.connected {
      ReceivingNext(id, input, i);
    } else {
      OverhearsNext(before, UART_QUERY_ID in host.supported, words, input[i]);
      TracelessExactly(before, UART_QUERY_ID in host.supported, words);
    }
    ok := host.Write(input[i]);
  }

  lemma HiddenConsoleId(before: seq<Query>, served: bool, id: u32)
    requires id != UART_QUERY_ID
    ensures Overhears(before, served, [id, 1, UART_QUERY_ID])
         == Listening(Some(QueryBuffer(UART_QUERY_ID, None, true, [])), before)
  {
    TracelessExactly(before, served, [id, 1]);
    OverhearsNext(before, served, [id, 1], UART_QUERY_ID);
    assert [id, 1] + [UART_QUERY_ID] == [id, 1, UART_QUERY_ID];
  }

  /** A word of a query that happens to be the console ID leaves a disconnected host waiting for the rest. */
  method ConsoleIdIsNotIgnored(host: Host, id: u32) returns (it: Option<OracleIterator>)
    requires host.Valid() && host.queryBuffer == None && !host.connected && id != UART_QUERY_ID
    modifies host
    ensures it.Some? && !host.Idle() && host.processed == old(host.processed)
    ensures host.queryBuffer == Some(QueryBuffer(UART_QUERY_ID, None, true, []))
  {
    it := RawQuery(host, id, [UART_QUERY_ID]);
    assert QueryWords(id, [UART_QUERY_ID]) == [id, 1, UART_QUERY_ID];
    HiddenConsoleId(old(host.processed), UART_QUERY_ID in host.supported, id);
  }

  // ----- whole queries and sessions

  /** The next word of an answer that is not at its end. */
  method NextWord(it: OracleIterator, ghost output: seq<u32>) returns (word: u32)
    requires Ready(it.host) && it.remaining > 0 && it.host.Output() == output != []
    modifies it, it.host
    ensures Ready(it.host) && it.host.processed == old(it.host.processed) && it.remaining == old(it.remaining) - 1
    ensures word == output[0] && it.host.Output() == output[1..]
  {
    var item := it.Next();
    word := item.value.value;
  }

  /** Reads up to `count` words of an answer. */
  method Take(it: OracleIterator, count: nat) returns (words: seq<u32>)
    requires Ready(it.host) && it.remaining <= |it.host.Output()|
    modifies it, it.host
    ensures Ready(it.host) && it.host.processed == old(it.host.processed)
    ensures words == old(it.host.Output())[..Min(count, old(it.remaining))]
    ensures it.host.Output() == old(it.host.Output())[|words|..]
  {
    words := [];
    ghost var output := it.host.Output();
    var left := Min(count, it.remaining);
    while left > 0
      invariant Ready(it.host) && it.host.processed == old(it.host.processed)
      invariant 0 <= left <= it.remaining && |words| + left == Min(count, old(it.remaining)) <= |output|
      invariant words == output[..|words|] && it.host.Output() == output[|words|..]
    {
      TakeOne(output, |words|);
      var word := NextWord(it, output[|words|..]);
      words := words + [word];
      left := left - 1;
    }
  }

  lemma TakeOne(output: seq<u32>, k: nat)
    requires k < |output|
    ensures output[k..] != [] && output[k..][0] == output[k] && output[k..][1..] == output[k + 1..]
    ensures output[..k] + [output[k]] == output[..k + 1]
  {
  }

  /** The guest reads back the whole answer, and the host is idle again, exactly for answers shorter than 2^31. */
  method FullQuery(host: Host, id: u32, input: seq<u32>) returns (answer: seq<u32>)
    requires Ready(host) && Served(host, id) && |input| < WORD
    modifies host
    ensures Ready(host) && host.processed == old(host.processed) + [(id, Pack(input))]
    ensures var response := host.respond(old(host.processed), (id, Pack(input)));
      && answer == Unpack(response)[..2 * |response| % WORD]
      && (answer == Unpack(response) <==> |response| < 0x8000_0000)
      && (host.Idle() <==> |response| < 0x8000_0000)
  {
    var query := RawQuery(host, id, input);
    var it := query.value;
    ghost var response := host.respond(old(host.processed), (id, Pack(input)));
    LengthExact(|response|);
    answer := Take(it, it.remaining);
    if |response| < 0x8000_0000 {
      host.DrainedIsIdle();
    } else {
      assert |answer| < |Unpack(response)|;
    }
  }

  /** The 32-bit length indication is right exactly below 2^31 words. */
  lemma LengthExact(n: nat)
    ensures 2 * n % WORD <= 2 * n
    ensures 2 * n % WORD == 2 * n <==> n < 0x8000_0000
  {
  }

  /** An answer of 2^31 words is announced as empty, and none of it is read. */
  lemma LongAnswerIsLost()
    ensures
      var response: seq<u64> := seq(0x8000_0000, i => 0);
      2 * |response| % WORD == 0 && Unpack(response)[..2 * |response| % WORD] == [] != Unpack(response)
  {
  }

  /** One query of a session: its ID, its input, and how many words of the answer the guest reads. */
  datatype Request = Request(id: u32, input: seq<u32>, take: nat)

  /** The queries the responders see in a session. */
  ghost function Queries(requests: seq<Request>): seq<Query>
  {
    if requests == [] then []
    else Queries(requests[..|requests| - 1]) + [(requests[|requests| - 1].id, Pack(requests[|requests| - 1].input))]
  }

  /** What the guest gets when it asks for `take` words of an answer. */
  ghost function Delivered(response: seq<u64>, take: nat): seq<u32>
  {
    LengthExact(|response|);
    Unpack(response)[..Min(take, 2 * |response| % WORD)]
  }

  method PartialQuery(host: Host, request: Request) returns (words: seq<u32>)
    requires Ready(host) && Served(host, request.id) && |request.input| < WORD
    modifies host
    ensures Ready(host) && host.processed == old(host.processed) + [(request.id, Pack(request.input))]
    ensures words == Delivered(host.respond(old(host.processed), (request.id, Pack(request.input))), request.take)
  {
    var query := RawQuery(host, request.id, request.input);
    var it := query.value;
    LengthExact(|host.respond(old(host.processed), (request.id, Pack(request.input)))|);
    words := Take(it, request.take);
  }

  /** What the guest reads in a session: of each answer, given the queries before it, the words it asks for. */
  ghost function Readings(respond: (seq<Query>, Query) -> seq<u64>, before: seq<Query>,
                          requests: seq<Request>): seq<seq<u32>>
  {
    if requests == [] then []
    else
      var n := |requests| - 1;
      Readings(respond, before, requests[..n])
      + [Delivered(respond(before + Queries(requests[..n]), (requests[n].id, Pack(requests[n].input))),
                   requests[n].take)]
  }

  lemma {:induction false} SessionNext(respond: (seq<Query>, Query) -> seq<u64>, before: seq<Query>,
                                       requests: seq<Request>, i: nat)
    requires i < |requests|
    ensures var query := (requests[i].id, Pack(requests[i].input));
      && Queries(requests[..i + 1]) == Queries(requests[..i]) + [query]
      && Readings(respond, before, requests[..i + 1])
         == Readings(respond, before, requests[..i])
            + [Delivered(respond(before + Queries(requests[..i]), query), requests[i].take)]
  {
    assert requests[..i + 1][..i] == requests[..i];
  }

  /** Any number of queries, each answer read only in part: every read sees its own answer. */
  method Session(host: Host, requests: seq<Request>) returns (answers: seq<seq<u32>>)
    requires Ready(host)
    requires forall i :: 0 <= i < |requests| ==> Served(host, requests[i].id) && |requests[i].input| < WORD
    modifies host
    ensures Ready(host) && host.processed == old(host.processed) + Queries(requests)
    ensures answers == Readings(host.respond, old(host.processed), requests)
  {
    answers := [];
    var i := 0;
    while i < |requests|
      invariant 0 <= i <= |requests| && Ready(host)
      invariant host.processed == old(host.processed) + Queries(requests[..i])
      invariant answers == Readings(host.respond, old(host.processed), requests[..i])
    {
      SessionNext(host.respond, old(host.processed), requests, i);
      var words := PartialQuery(host, requests[i]);
      answers := answers + [words];
      i := i + 1;
    }
    assert requests[..i] == requests;
  }
}
