/**
  The publisher's telegram framer: the line loop of runPublisher.

  A line starting with '/' opens a telegram and resets the buffer; while a
  telegram is open every line is appended to the buffer with a trailing
  newline; a line starting with '!' publishes the buffer as it then stands
  and closes the telegram. The buffer is reset only by a '/' line, so a '!'
  line seen while no telegram is open publishes the buffer unchanged.
*/
module Framing {
  import opened Results

  /** strings.HasPrefix(line, "/"): the line opens a telegram. */
  predicate IsStart(line: string) {
    |line| > 0 && line[0] == '/'
  }

  /** strings.HasPrefix(line, "!"): the line ends a telegram. */
  predicate IsEnd(line: string) {
    |line| > 0 && line[0] == '!'
  }

  /** The text the lines contribute to the buffer: each line followed by a newline. */
  function Join(ls: seq<string>): string {
    if ls == [] then "" else Join(ls[..|ls| - 1]) + ls[|ls| - 1] + "\n"
  }

  /** The index of the last '/' line of ls, if there is one. */
  function LastStart(ls: seq<string>): (r: Option<nat>)
    ensures r.Some? ==> r.value < |ls|
  {
    if ls == [] then None
    else if IsStart(ls[|ls| - 1]) then Some(|ls| - 1)
    else LastStart(ls[..|ls| - 1])
  }

  /** LastStart finds the last '/' line, and finds none only when there is none. */
  lemma {:induction false} LastStartExact(ls: seq<string>)
    ensures LastStart(ls).Some? ==> IsStart(ls[LastStart(ls).value])
    ensures LastStart(ls).Some? ==> forall k :: LastStart(ls).value < k < |ls| ==> !IsStart(ls[k])
    ensures LastStart(ls).None? ==> forall k :: 0 <= k < |ls| ==> !IsStart(ls[k])
  {
    if ls != [] && !IsStart(ls[|ls| - 1]) {
      var p := ls[..|ls| - 1];
      LastStartExact(p);
      forall k | 0 <= k < |p| ensures ls[k] == p[k] { }
    }
  }

  /** The lines of s up to and including its first '!' line (all of s if it has none). */
  function ThroughFirstEnd(s: seq<string>): seq<string> {
    if s == [] then []
    else if NoEnd(s[..|s| - 1]) then s
    else ThroughFirstEnd(s[..|s| - 1])
  }

  /** No line of s ends a telegram. */
  predicate NoEnd(s: seq<string>) {
    forall k :: 0 <= k < |s| ==> !IsEnd(s[k])
  }

  /**
    The framer's buffer after the lines ls: empty while no '/' line has been
    seen; otherwise the lines from the last '/' line through the first '!'
    line after it (or through the end of ls while the telegram is open).
  */
  function BufferOf(ls: seq<string>): string {
    match LastStart(ls)
    case None => ""
    case Some(j) => Join(ThroughFirstEnd(ls[j..]))
  }

  /** The framer's inTelegram flag after the lines ls: a '/' line was seen and no '!' line since the last one. */
  predicate InTelegramOf(ls: seq<string>) {
    match LastStart(ls)
    case None => false
    case Some(j) => NoEnd(ls[j..])
  }

  /**
    What a loop publishes that, at every '!' line, publishes buffer(the lines
    so far): one payload per '!' line, in input order.
  */
  function Emit(buffer: seq<string> -> string, ls: seq<string>): seq<string> {
    if ls == [] then []
    else Emit(buffer, ls[..|ls| - 1]) + (if IsEnd(ls[|ls| - 1]) then [buffer(ls)] else [])
  }

  /** Reference: the payloads published for the lines ls, one per '!' line, each the buffer right after that line. */
  function Payloads(ls: seq<string>): seq<string> {
    Emit(BufferOf, ls)
  }

  /** The indices of the '!' lines of ls, in increasing order. */
  function EndIndices(ls: seq<string>): (r: seq<nat>)
    ensures forall k :: 0 <= k < |r| ==> r[k] < |ls|
  {
    if ls == [] then []
    else EndIndices(ls[..|ls| - 1]) + (if IsEnd(ls[|ls| - 1]) then [|ls| - 1] else [])
  }

  /** EndIndices lists exactly the '!' lines, in strictly increasing order. */
  lemma {:induction false} EndIndicesExact(ls: seq<string>)
    ensures forall k :: 0 <= k < |EndIndices(ls)| ==> IsEnd(ls[EndIndices(ls)[k]])
    ensures forall a, b :: 0 <= a < b < |EndIndices(ls)| ==> EndIndices(ls)[a] < EndIndices(ls)[b]
    ensures forall i :: 0 <= i < |ls| && IsEnd(ls[i]) ==> i in EndIndices(ls)
  {
    if ls != [] {
      var n := |ls|;
      var p := ls[..n - 1];
      EndIndicesExact(p);
      var E, Ep := EndIndices(ls), EndIndices(p);
      assert E == Ep + (if IsEnd(ls[n - 1]) then [n - 1] else []);
      forall k | 0 <= k < |Ep| ensures ls[Ep[k]] == p[Ep[k]] { }
      forall i | 0 <= i < n - 1 && IsEnd(ls[i]) ensures i in E {
        assert p[i] == ls[i];
      }
    }
  }

  lemma ThroughFirstEndSnoc(s: seq<string>, line: string)
    ensures ThroughFirstEnd(s + [line]) == if NoEnd(s) then s + [line] else ThroughFirstEnd(s)
  {
    assert (s + [line])[..|s|] == s;
  }

  lemma LastStartSnoc(ls: seq<string>, line: string)
    ensures LastStart(ls + [line]) == if IsStart(line) then Some(|ls|) else LastStart(ls)
  {
    assert (ls + [line])[..|ls|] == ls;
  }

  /** The lines from the last '/' line on, after one more line that does not open a telegram. */
  lemma TailSnoc(ls: seq<string>, j: nat, line: string)
    requires j <= |ls|
    ensures (ls + [line])[j..] == ls[j..] + [line]
    ensures Join(ls[j..] + [line]) == Join(ls[j..]) + line + "\n"
  {
    var t := ls[j..] + [line];
    assert t[..|t| - 1] == ls[j..];
  }

  /**
    One step of the framer, stated on the reference: how the buffer and the
    flag after ls + [line] follow from those after ls.
  */
  lemma Step(ls: seq<string>, line: string)
    ensures BufferOf(ls + [line]) ==
      if IsStart(line) then line + "\n"
      else if InTelegramOf(ls) then BufferOf(ls) + line + "\n"
      else BufferOf(ls)
    ensures InTelegramOf(ls + [line]) == ((IsStart(line) || InTelegramOf(ls)) && !IsEnd(line))
  {
    LastStartSnoc(ls, line);
    if IsStart(line) {
      StepStart(ls, line);
    } else if LastStart(ls).Some? {
      StepAfterStart(ls, LastStart(ls).value, line);
    }
  }

  lemma StepStart(ls: seq<string>, line: string)
    requires IsStart(line) && LastStart(ls + [line]) == Some(|ls|)
    ensures BufferOf(ls + [line]) == line + "\n"
    ensures InTelegramOf(ls + [line])
  {
    assert (ls + [line])[|ls|..] == [line];
    ThroughFirstEndOne(line);
    JoinOne(line);
  }

  lemma ThroughFirstEndOne(line: string)
    ensures ThroughFirstEnd([line]) == [line]
  {
    assert [line][..0] == [];
  }

  lemma JoinOne(line: string)
    ensures Join([line]) == line + "\n"
  {
    assert [line][..0] == [];
  }

  lemma StepAfterStart(ls: seq<string>, j: nat, line: string)
    requires !IsStart(line) && LastStart(ls) == Some(j) && LastStart(ls + [line]) == Some(j)
    ensures BufferOf(ls + [line]) ==
      if InTelegramOf(ls) then BufferOf(ls) + line + "\n" else BufferOf(ls)
    ensures InTelegramOf(ls + [line]) == (InTelegramOf(ls) && !IsEnd(line))
  {
    TailSnoc(ls, j, line);
    ThroughFirstEndSnoc(ls[j..], line);
    if NoEnd(ls[j..]) {
      ThroughFirstEndWhole(ls[j..]);
    }
  }

  lemma ThroughFirstEndWhole(s: seq<string>)
    requires NoEnd(s)
    ensures ThroughFirstEnd(s) == s
  {
    if s != [] {
      NoEndBeforeLast(s);
    }
  }

  /** A line that neither opens a telegram nor arrives while one is open leaves the buffer and the flag unchanged. */
  lemma IdleLineNotBuffered(ls: seq<string>, line: string)
    requires !IsStart(line) && !InTelegramOf(ls)
    ensures BufferOf(ls + [line]) == BufferOf(ls)
    ensures !InTelegramOf(ls + [line])
  {
    Step(ls, line);
  }

  /** After any '!' line no telegram is open. */
  lemma EndLineCloses(ls: seq<string>, line: string)
    requires IsEnd(line)
    ensures !InTelegramOf(ls + [line])
  {
    Step(ls, line);
  }

  /**
    A '!' line that follows the most recent '/' line with no other '!' line
    between them publishes exactly the lines from that '/' line through the
    '!' line, each with a newline appended, in order.
  */
  lemma FramedPayload(ls: seq<string>, j: nat, i: nat)
    requires j < i < |ls|
    requires IsStart(ls[j]) && IsEnd(ls[i])
    requires forall k :: j < k < i ==> !IsStart(ls[k]) && !IsEnd(ls[k])
    ensures Payloads(ls[..i + 1]) == Payloads(ls[..i]) + [Join(ls[j..i + 1])]
  {
    assert ls[..i] + [ls[i]] == ls[..i + 1];
    PayloadsSnoc(ls[..i], ls[i]);
    var t := ls[j..i + 1];
    assert ls[..i + 1] == ls[..j] + t;
    forall k | 0 < k < |t| ensures !IsStart(t[k]) {
      assert t[k] == ls[j + k];
    }
    forall k | 0 <= k < |t| - 1 ensures !IsEnd(t[k]) {
      assert t[k] == ls[j + k];
    }
    BufferOfOpenTelegram(ls[..j], t);
  }

  /** The buffer after a '/' line followed by lines with no '/' or '!' line before the last: all of those lines. */
  lemma BufferOfOpenTelegram(before: seq<string>, t: seq<string>)
    requires |t| > 0 && IsStart(t[0])
    requires forall k :: 0 < k < |t| ==> !IsStart(t[k])
    requires forall k :: 0 <= k < |t| - 1 ==> !IsEnd(t[k])
    ensures BufferOf(before + t) == Join(t)
  {
    OpenTelegramStart(before, t);
    NoEndBeforeLast(t);
    assert (before + t)[|before|..] == t;
  }

  lemma OpenTelegramStart(before: seq<string>, t: seq<string>)
    requires |t| > 0 && IsStart(t[0])
    requires forall k :: 0 < k < |t| ==> !IsStart(t[k])
    ensures LastStart(before + t) == Some(|before|)
  {
    LastStartIs(t, 0);
    LastStartShift(before, t);
  }

  lemma NoEndBeforeLast(t: seq<string>)
    requires |t| > 0
    requires forall k :: 0 <= k < |t| - 1 ==> !IsEnd(t[k])
    ensures ThroughFirstEnd(t) == t
  {
    var front := t[..|t| - 1];
    forall k | 0 <= k < |front| ensures !IsEnd(front[k]) {
      assert front[k] == t[k];
    }
  }

  lemma LastStartIs(ls: seq<string>, j: nat)
    requires j < |ls| && IsStart(ls[j])
    requires forall k :: j < k < |ls| ==> !IsStart(ls[k])
    ensures LastStart(ls) == Some(j)
  {
    LastStartExact(ls);
  }

  /**
    A '/' line discards everything fed before it: the lines before it never
    reach a later telegram, and what is published from it on is what a fresh
    framer would publish.
  */
  lemma RestartDiscards(before: seq<string>, after: seq<string>)
    requires |after| > 0 && IsStart(after[0])
    ensures BufferOf(before + after) == BufferOf(after)
    ensures InTelegramOf(before + after) == InTelegramOf(after)
    ensures Payloads(before + after) == Payloads(before) + Payloads(after)
  {
    RestartState(before, after);
    RestartPayloads(before, after);
  }

  /** The last '/' line of before + after is that of after, when after has one. */
  lemma {:induction false} LastStartShift(before: seq<string>, after: seq<string>)
    requires |after| > 0 && IsStart(after[0])
    ensures LastStart(after).Some?
    ensures LastStart(before + after) == Some(|before| + LastStart(after).value)
  {
    var n := |after|;
    var front, line := after[..n - 1], after[n - 1];
    assert after == front + [line];
    assert before + after == (before + front) + [line];
    LastStartSnoc(before + front, line);
    LastStartSnoc(front, line);
    if !IsStart(line) {
      LastStartShift(before, front);
    }
  }

  lemma RestartState(before: seq<string>, after: seq<string>)
    requires |after| > 0 && IsStart(after[0])
    ensures BufferOf(before + after) == BufferOf(after)
    ensures InTelegramOf(before + after) == InTelegramOf(after)
  {
    LastStartShift(before, after);
    var j := LastStart(after).value;
    assert (before + after)[|before| + j..] == after[j..];
  }

  lemma {:induction false} RestartPayloads(before: seq<string>, after: seq<string>)
    requires |after| > 0 && IsStart(after[0])
    ensures Payloads(before + after) == Payloads(before) + Payloads(after)
  {
    var n := |after|;
    var front, line := after[..n - 1], after[n - 1];
    assert after == front + [line];
    assert before + after == (before + front) + [line];
    PayloadsSnoc(before + front, line);
    PayloadsSnoc(front, line);
    if n == 1 {
      assert front == [] && before + front == before;
      assert Payloads([]) == [];
    } else {
      RestartPayloads(before, front);
      RestartState(before, after);
    }
  }

  lemma PayloadsSnoc(ls: seq<string>, line: string)
    ensures Payloads(ls + [line]) == Payloads(ls) + if IsEnd(line) then [BufferOf(ls + [line])] else []
  {
    assert (ls + [line])[..|ls|] == ls;
    assert Emit(BufferOf, ls + [line]) == Emit(BufferOf, ls) + if IsEnd(line) then [BufferOf(ls + [line])] else [];
  }

  /** While no telegram is open after some '/' line, the buffer still holds the last payload published. */
  lemma {:induction false} IdleBufferIsLastPayload(ls: seq<string>)
    requires LastStart(ls).Some? && !InTelegramOf(ls)
    ensures Payloads(ls) != [] && Payloads(ls)[|Payloads(ls)| - 1] == BufferOf(ls)
  {
    var n := |ls|;
    var line := ls[n - 1];
    var p := ls[..n - 1];
    assert p + [line] == ls;
    Step(p, line);
    if !IsEnd(line) {
      assert !IsStart(line);
      assert LastStart(p).Some?;
      IdleBufferIsLastPayload(p);
    }
  }

  /**
    A '!' line while no telegram is open publishes anyway: the empty string
    before any '/' line, otherwise the previous telegram again.
  */
  lemma IdleEndRepublishes(ls: seq<string>, line: string)
    requires IsEnd(line) && !InTelegramOf(ls)
    ensures Payloads(ls + [line]) == Payloads(ls) + [BufferOf(ls)]
    ensures LastStart(ls).None? ==> BufferOf(ls) == ""
    ensures LastStart(ls).Some? ==> Payloads(ls) != [] && BufferOf(ls) == Payloads(ls)[|Payloads(ls)| - 1]
  {
    var ls' := ls + [line];
    assert ls'[..|ls'| - 1] == ls;
    Step(ls, line);
    if LastStart(ls).Some? {
      IdleBufferIsLastPayload(ls);
    }
  }

  /** The k-th payload of Emit belongs to the k-th '!' line and is the buffer right after it. */
  lemma {:induction false} EmitOrder(buffer: seq<string> -> string, ls: seq<string>)
    ensures |Emit(buffer, ls)| == |EndIndices(ls)|
    ensures forall k :: 0 <= k < |Emit(buffer, ls)| ==>
      Emit(buffer, ls)[k] == buffer(ls[..EndIndices(ls)[k] + 1])
  {
    if ls != [] {
      var n := |ls|;
      var p := ls[..n - 1];
      EmitOrder(buffer, p);
      forall k | 0 <= k < |EndIndices(p)|
        ensures ls[..EndIndices(p)[k] + 1] == p[..EndIndices(p)[k] + 1]
      {
      }
      assert ls[..n] == ls;
    }
  }

  /**
    Every '!' line publishes exactly once, in input order, and no other line
    publishes: the k-th payload belongs to the k-th '!' line and is the buffer
    right after it.
  */
  lemma PublishOrder(ls: seq<string>)
    ensures |Payloads(ls)| == |EndIndices(ls)|
    ensures forall k :: 0 <= k < |Payloads(ls)| ==>
      Payloads(ls)[k] == BufferOf(ls[..EndIndices(ls)[k] + 1])
  {
    EmitOrder(BufferOf, ls);
  }

  /** A telegram of a header line, one data line and an end line yields exactly one payload: the three lines. */
  lemma ThreeLineTelegram(a: string, b: string, c: string)
    requires IsStart(a) && !IsStart(b) && !IsEnd(b) && IsEnd(c)
    ensures Payloads([a, b, c]) == [a + "\n" + b + "\n" + c + "\n"]
  {
    var ls := [a, b, c];
    FramedPayload(ls, 0, 2);
    assert ls[..3] == ls && ls[0..3] == ls;
    var l1, l2 := ls[..1], ls[..2];
    assert l1[..0] == [] && l2[..1] == l1;
    assert [] + [a] == l1 && l1 + [b] == l2;
    PayloadsSnoc([], a);
    PayloadsSnoc(l1, b);
    assert Join(l1) == a + "\n";
    assert Join(l2) == a + "\n" + b + "\n";
  }

  /** The sample telegram from a meter yields exactly one payload. */
  lemma SampleTelegram()
    ensures Payloads(["/ISK5\\0003", "1-0:1.8.1(001234.567*kWh)", "!A1B2"]) ==
      ["/ISK5\\0003\n1-0:1.8.1(001234.567*kWh)\n!A1B2\n"]
  {
    ThreeLineTelegram("/ISK5\\0003", "1-0:1.8.1(001234.567*kWh)", "!A1B2");
    SampleText();
  }

  lemma SampleText()
    ensures "/ISK5\\0003" + "\n" + "1-0:1.8.1(001234.567*kWh)" + "\n" + "!A1B2" + "\n" ==
      "/ISK5\\0003\n1-0:1.8.1(001234.567*kWh)\n!A1B2\n"
  {
  }

  /** The framer's two pieces of state: the telegram buffer and the inTelegram flag. */
  class TelegramFramer {
    var telegram: string
    var inTelegram: bool
    /** The lines fed so far. */
    ghost var seen: seq<string>

    ghost predicate Valid()
      reads this
    {
      telegram == BufferOf(seen) && inTelegram == InTelegramOf(seen)
    }

    constructor ()
      ensures Valid() && seen == []
      ensures telegram == "" && !inTelegram
    {
      telegram := "";
      inTelegram := false;
      seen := [];
    }

    /** One iteration of the scanner loop: returns the payload to publish, if the line is a '!' line. */
    method Feed(line: string) returns (payload: Option<string>)
      requires Valid()
      modifies this
      ensures Valid() && seen == old(seen) + [line]
      ensures telegram ==
        if IsStart(line) then line + "\n"
        else if old(inTelegram) then old(telegram) + line + "\n"
        else old(telegram)
      ensures inTelegram == ((IsStart(line) || old(inTelegram)) && !IsEnd(line))
      ensures payload == if IsEnd(line) then Some(telegram) else None
    {
      Step(seen, line);
      if IsStart(line) {
        inTelegram := true;
        telegram := "";
      }
      if inTelegram {
        telegram := telegram + line + "\n";
      }
      payload := None;
      if IsEnd(line) {
        payload := Some(telegram);
        inTelegram := false;
      }
      seen := seen + [line];
    }
  }

  /** How the publisher's read loop ended. */
  datatype RunStatus = StreamClosed | ReadFailed

  /**
    The publisher's read loop over the lines the scanner delivered before the
    stream closed or failed; every payload the framer yields is published, in
    order, and the loop goes on whatever the publish outcome.
  */
  method RunPublisher(lines: seq<string>, readError: bool) returns (published: seq<string>, status: RunStatus)
    ensures published == Payloads(lines)
    ensures status == if readError then ReadFailed else StreamClosed
  {
    var framer := new TelegramFramer();
    published := [];
    var i := 0;
    while i < |lines|
      invariant 0 <= i <= |lines|
      invariant framer.Valid() && framer.seen == lines[..i]
      invariant published == Payloads(lines[..i])
    {
      var payload := framer.Feed(lines[i]);
      assert lines[..i + 1][..i] == lines[..i];
      if payload.Some? {
        published := published + [payload.value];
      }
      i := i + 1;
    }
    assert lines[..|lines|] == lines;
    status := if readError then ReadFailed else StreamClosed;
  }
}
