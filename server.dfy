/**
 * `HandleRequest` (Program.cs:135-372) as one sequential run over a line,
 * and the filter of the read loop in `Main` (Program.cs:116-132) that
 * decides which lines are handed to it.
 */
module Server {
  import opened Options
  import opened Text
  import opened Framing
  import opened Store
  import opened Output
  import opened Commands

  /** Where a run over some sub-requests stands: the responses delivered, the store's whole call history, and whether the run has returned. */
  datatype Outcome = Outcome(sent: seq<Delivery>, trace: seq<Call>, stopped: bool)

  /**
   * One turn of the `foreach` over sub-requests. `fileExists` says whether a
   * path exists: it answers `File.Exists` for a one-word sub-request, and for
   * a longer one it says whether `FileMode.Open` succeeds. An open that fails
   * throws before the switch; the model ends the line there, as at the `return`.
   */
  function Step(acc: Outcome, sub: string, fileExists: string -> bool, o: Oracle): (r: Outcome)
    ensures |acc.trace| <= |r.trace| <= |acc.trace| + 1 && r.trace[..|acc.trace|] == acc.trace
    ensures |acc.sent| <= |r.sent| <= |acc.sent| + 1 && r.sent[..|acc.sent|] == acc.sent
    ensures r.stopped <==> acc.stopped || !fileExists(Words(sub)[0])
  {
    if acc.stopped then acc
    else
      var words := Words(sub);
      if !fileExists(words[0]) then acc.(stopped := true)
      else if |words| < 2 then acc.(sent := acc.sent + [Delivery(words[0], MissingActionText)])
      else Act(acc, words, o)
  }

  /** A sub-request with an action word whose path opens: one response, and the store call the action makes. */
  function Act(acc: Outcome, words: seq<string>, o: Oracle): Outcome
    requires |words| >= 2
  {
    var d := Decide(words);
    Outcome(acc.sent + [Delivery(words[0], LinesOf(d, o, acc.trace))], acc.trace + CallsOf(d), false)
  }

  /**
   * The run over the sub-requests `subs`, in order, starting from the store
   * history `h`: it only appends to the history, with at most one call and
   * at most one response per sub-request.
   */
  function Serve(subs: seq<string>, fileExists: string -> bool, o: Oracle, h: seq<Call>): (r: Outcome)
    ensures |h| <= |r.trace| <= |h| + |subs| && r.trace[..|h|] == h
    ensures |r.sent| <= |subs|
    decreases |subs|
  {
    if subs == [] then Outcome([], h, false)
    else
      var acc := Serve(subs[..|subs| - 1], fileExists, o, h);
      var r := Step(acc, subs[|subs| - 1], fileExists, o);
      assert r.trace[..|h|] == r.trace[..|acc.trace|][..|h|];
      r
  }

  /**
   * The body of the `foreach` for one sub-request: tokenise it, then either
   * give up on the line (`stop`: the source's `return`, or the exception of
   * an open that fails), or open the output path and write the response.
   * `sent` grows by the response written.
   */
  method HandleSubRequest(sub: string, fileExists: string -> bool, db: MemoryDb, sent: seq<Delivery>)
    returns (stop: bool, sent': seq<Delivery>)
    modifies db
    ensures Step(Outcome(sent, old(db.trace), false), sub, fileExists, db.oracle) == Outcome(sent', db.trace, stop)
  {
    ghost var acc := Outcome(sent, db.trace, false);
    var words := Words(sub);
    if |words| < 2 {
      if !fileExists(words[0]) {
        assert Step(acc, sub, fileExists, db.oracle) == acc.(stopped := true);
        return true, sent;
      }
      var out := new Writer.Open(words[0]);
      out.WriteAll(MissingActionText);
      assert out.lines == MissingActionText;
      sent' := sent + [Delivery(out.path, out.lines)];
      assert db.trace == acc.trace;
      assert Step(acc, sub, fileExists, db.oracle) == Outcome(sent', db.trace, false);
    } else {
      if !fileExists(words[0]) {
        // `FileMode.Open` throws: nothing is written, the store is not called and the line is abandoned.
        assert Step(acc, sub, fileExists, db.oracle) == acc.(stopped := true);
        return true, sent;
      }
      var out := new Writer.Open(words[0]);
      Dispatch(words, db, out);
      sent' := sent + [Delivery(out.path, out.lines)];
      ghost var d := Decide(words);
      assert out.lines == LinesOf(d, db.oracle, acc.trace);
      assert db.trace == acc.trace + CallsOf(d);
      assert Step(acc, sub, fileExists, db.oracle)
          == Outcome(sent + [Delivery(words[0], LinesOf(d, db.oracle, acc.trace))], acc.trace + CallsOf(d), false);
      assert Step(acc, sub, fileExists, db.oracle) == Outcome(sent', db.trace, false);
    }
    stop := false;
  }

  /**
   * `HandleRequest`: frame the line, then handle its sub-requests one after
   * the other. `sent` lists the responses in the order they were written.
   */
  method HandleRequest(line: string, fileExists: string -> bool, db: MemoryDb) returns (sent: seq<Delivery>)
    modifies db
    ensures var r := Serve(Frame(line), fileExists, db.oracle, old(db.trace));
      sent == r.sent && db.trace == r.trace
  {
    var inputs := FrameRequests(line);
    ghost var h := db.trace;
    sent := [];
    var j := 0;
    while j < |inputs|
      invariant 0 <= j <= |inputs|
      invariant Serve(inputs[..j], fileExists, db.oracle, h) == Outcome(sent, db.trace, false)
    {
      ServeNext(inputs, j, fileExists, db.oracle, h);
      var stop;
      stop, sent := HandleSubRequest(inputs[j], fileExists, db, sent);
      if stop {
        StopIsFinal(inputs, j + 1, fileExists, db.oracle, h);
        return;
      }
      j := j + 1;
    }
    assert inputs[..j] == inputs;
  }

  /** Once a run has returned, the remaining sub-requests change nothing. */
  lemma {:induction false} StopIsFinal(subs: seq<string>, k: nat, fileExists: string -> bool, o: Oracle, h: seq<Call>)
    requires k <= |subs| && Serve(subs[..k], fileExists, o, h).stopped
    ensures Serve(subs, fileExists, o, h) == Serve(subs[..k], fileExists, o, h)
    decreases |subs|
  {
    if k < |subs| {
      var init := subs[..|subs| - 1];
      assert init[..k] == subs[..k];
      StopIsFinal(init, k, fileExists, o, h);
    } else {
      assert subs[..k] == subs;
    }
  }

  /** The run over one more sub-request is one more `Step`. */
  lemma ServeNext(subs: seq<string>, k: nat, fileExists: string -> bool, o: Oracle, h: seq<Call>)
    requires k < |subs|
    ensures Serve(subs[..k + 1], fileExists, o, h) == Step(Serve(subs[..k], fileExists, o, h), subs[k], fileExists, o)
  {
    assert subs[..k + 1][..k] == subs[..k];
    assert subs[..k + 1][k] == subs[k];
  }

  /** A one-word sub-request on a running line: usage text if the path exists, otherwise the line stops. */
  lemma StepOneWord(acc: Outcome, sub: string, fileExists: string -> bool, o: Oracle)
    requires !acc.stopped && |Words(sub)| == 1
    ensures var p := Words(sub)[0];
      Step(acc, sub, fileExists, o)
        == if fileExists(p) then acc.(sent := acc.sent + [Delivery(p, MissingActionText)]) else acc.(stopped := true)
  {
  }

  /** A sub-request whose path does not exist ends the line and changes nothing else. */
  lemma StepMissingPath(acc: Outcome, sub: string, fileExists: string -> bool, o: Oracle)
    requires !fileExists(Words(sub)[0])
    ensures Step(acc, sub, fileExists, o) == acc.(stopped := true)
  {
  }

  /**
   * A sub-request whose path does not exist writes nothing and ends the
   * whole line: neither it nor any later sub-request gets a response or
   * reaches the store. With one word the handler checks `File.Exists` and
   * returns; with more, opening the path throws before the switch.
   */
  lemma MissingPathEndsLine(subs: seq<string>, k: nat, fileExists: string -> bool, o: Oracle, h: seq<Call>)
    requires k < |subs|
    ensures !fileExists(Words(subs[k])[0]) ==>
      Serve(subs, fileExists, o, h) == Serve(subs[..k], fileExists, o, h).(stopped := true)
  {
    if !fileExists(Words(subs[k])[0]) {
      ServeNext(subs, k, fileExists, o, h);
      StepMissingPath(Serve(subs[..k], fileExists, o, h), subs[k], fileExists, o);
      StopIsFinal(subs, k + 1, fileExists, o, h);
    }
  }

  /** A one-word sub-request whose path exists gets exactly the twelve lines of the action list, and no store call. */
  lemma OneWordUsage(subs: seq<string>, k: nat, fileExists: string -> bool, o: Oracle, h: seq<Call>)
    requires k < |subs|
    ensures var before := Serve(subs[..k], fileExists, o, h);
      var after := Serve(subs[..k + 1], fileExists, o, h);
      !before.stopped && |Words(subs[k])| == 1 && fileExists(Words(subs[k])[0]) ==>
        after.sent == before.sent + [Delivery(Words(subs[k])[0], MissingActionText)]
        && after.trace == before.trace && |MissingActionText| == 12
  {
    var before := Serve(subs[..k], fileExists, o, h);
    ServeNext(subs, k, fileExists, o, h);
    if !before.stopped && |Words(subs[k])| == 1 && fileExists(Words(subs[k])[0]) {
      StepOneWord(before, subs[k], fileExists, o);
      UsageTextsAgree();
    }
  }

  /** Every response of a line goes to a path that starts with the anchor. */
  lemma {:induction false} ResponsesGoToAnchoredPaths(subs: seq<string>, fileExists: string -> bool, o: Oracle, h: seq<Call>)
    requires forall k :: 0 <= k < |subs| ==> Anchor <= subs[k]
    ensures forall d :: d in Serve(subs, fileExists, o, h).sent ==> Anchor <= d.path
    decreases |subs|
  {
    if subs != [] {
      var init := subs[..|subs| - 1];
      var last := subs[|subs| - 1];
      ResponsesGoToAnchoredPaths(init, fileExists, o, h);
      assert last == Anchor + last[|Anchor|..];
      SubRequestHasPath(last[|Anchor|..]);
      StepSendsToFirstWord(Serve(init, fileExists, o, h), last, fileExists, o);
    }
  }

  /** A sub-request's response, if any, goes to its first word. */
  lemma StepSendsToFirstWord(acc: Outcome, sub: string, fileExists: string -> bool, o: Oracle)
    ensures forall d :: d in Step(acc, sub, fileExists, o).sent ==> d in acc.sent || d.path == Words(sub)[0]
  {
    var r := Step(acc, sub, fileExists, o);
    var words := Words(sub);
    if acc.stopped || !fileExists(words[0]) {
      assert r.sent == acc.sent;
    } else if |words| < 2 {
      assert r.sent == acc.sent + [Delivery(words[0], MissingActionText)];
    } else {
      assert r.sent == acc.sent + [Delivery(words[0], LinesOf(Decide(words), o, acc.trace))];
    }
  }

  /** So every response of `HandleRequest` goes to a path that starts with the anchor. */
  lemma LineResponsesGoToAnchoredPaths(line: string, fileExists: string -> bool, o: Oracle, h: seq<Call>)
    ensures forall d :: d in Serve(Frame(line), fileExists, o, h).sent ==> Anchor <= d.path
  {
    ResponsesGoToAnchoredPaths(Frame(line), fileExists, o, h);
  }

  /** A double space before the verb makes the empty word the verb, so the action list is written instead of running the command. */
  lemma DoubleSpaceBeforeVerb(path: string, verb: string, key: string)
    requires path != [] && key != [] && NoWhite(path) && NoWhite(verb) && NoWhite(key)
    ensures var words := Words(path + "  " + verb + " " + key);
      |words| == 4 && words[1] == "" && Decide(words) == Usage
  {
    var words := Words(path + "  " + verb + " " + key);
    DoubleSpaceEmptyWord(path, verb, key);
    EmptyVerbIsUsage(words);
  }

  /** `!string.IsNullOrEmpty(line) && !string.IsNullOrWhiteSpace(line)`: a null read is `None`. */
  predicate Admit(line: Option<string>): (b: bool)
    ensures b <==> line.Some? && HasContent(line.value)
  {
    line.Some? && line.value != "" && HasContent(line.value)
  }

  /** The lines the read loop hands over, in the order they were read. */
  function Admitted(received: seq<Option<string>>): (r: seq<string>)
    ensures |r| <= |received|
  {
    if received == [] then []
    else Admitted(received[..|received| - 1]) + (if Admit(received[|received| - 1]) then [received[|received| - 1].value] else [])
  }

  /**
   * The read loop of `Main` over the lines read so far: each line that is
   * neither null, empty nor all white space is queued for `HandleRequest`.
   */
  method Ingest(received: seq<Option<string>>) returns (queued: seq<string>)
    ensures queued == Admitted(received)
  {
    queued := [];
    for i := 0 to |received|
      invariant queued == Admitted(received[..i])
    {
      assert received[..i + 1][..i] == received[..i];
      var line := received[i];
      if line.Some? && line.value != "" && HasContent(line.value) {
        queued := queued + [line.value];
      }
    }
    assert received[..|received|] == received;
  }

  /** A line is handed over exactly when it was read and has a non-white character; it is handed over unchanged. */
  lemma {:induction false} AdmittedExactly(received: seq<Option<string>>, s: string)
    ensures s in Admitted(received) <==> Some(s) in received && HasContent(s)
    decreases |received|
  {
    if received != [] {
      var init := received[..|received| - 1];
      AdmittedExactly(init, s);
      assert received == init + [received[|received| - 1]];
      if HasContent(s) {
        assert s != "";
      }
    }
  }
}
