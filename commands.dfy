/**
 * The command dispatcher of `HandleRequest` (Program.cs:188-366): the second
 * word of a sub-request picks one of ten verbs; each verb checks its word
 * count, makes at most one store call and writes its response lines.
 */
module Commands {
  import opened Options
  import opened Text
  import opened Store
  import opened Output

  /** What a sub-request of two or more words asks for. */
  datatype Decision =
    | Usage                // unknown verb: the list of actions
    | Reject(error: string) // a guard failed: one ERROR line, no store call
    | Run(call: Call)      // one store call, then its response lines

  const MissingKey := "ERROR: Missing key"
  const PurgeMissingKey := "ERROR: missing key"
  const LoadMissingArgs := "ERROR: Missing key or override value"
  const LoadAllMissingArg := "ERROR: missing override value"
  const BadOverride := "ERROR: override can be true or false"

  /** Every error line a guard can write. */
  const Errors: set<string> := {MissingKey, PurgeMissingKey, LoadMissingArgs, LoadAllMissingArg, BadOverride}

  /** The ten verbs the switch recognises. */
  const Verbs: set<string> := {"get", "getdir", "getall", "set", "delall", "deldir", "save", "load", "loadall", "purge"}

  /** The text written for a one-word sub-request (Program.cs:172-183). */
  const MissingActionText: seq<string> := [
    "Action word is missing. Possible actions:",
    "Read record:         get <key>",
    "List sub records:    getdir <key>",
    "List all records:    getall",
    "Create record:       set <key> <value>",
    "Delete record:       set <key>",
    "Delete all records:  delall",
    "Delete sub records:  deldir <key>",
    "Save record:         save <key>",
    "Load record:         load <key> <override: true/false>",
    "Load all records:    loadall <override: true/false",
    "Purge from file:     purge <key>"
  ]

  /** The text written for an unknown verb (Program.cs:350-361), a second copy in the source. */
  const UnknownActionText: seq<string> := [
    "Action word is missing. Possible actions:",
    "Read record:         get <key>",
    "List sub records:    getdir <key>",
    "List all records:    getall",
    "Create record:       set <key> <value>",
    "Delete record:       set <key>",
    "Delete all records:  delall",
    "Delete sub records:  deldir <key>",
    "Save record:         save <key>",
    "Load record:         load <key> <override: true/false>",
    "Load all records:    loadall <override: true/false",
    "Purge from file:     purge <key>"
  ]

  /** The override token of `load`: exactly "true" or "false". */
  function LoadOverride(token: string): (r: Option<bool>)
    ensures r.None? <==> token != "true" && token != "false"
    ensures r.Some? ==> token == (if r.value then "true" else "false")
  {
    if token == "true" then Some(true) else if token == "false" then Some(false) else None
  }

  /** The override token of `loadall`: "true" or, as the source spells it, "falase". */
  function LoadAllOverride(token: string): (r: Option<bool>)
    ensures r.None? <==> token != "true" && token != "falase"
    ensures r.Some? ==> token == (if r.value then "true" else "falase")
  {
    if token == "true" then Some(true) else if token == "falase" then Some(false) else None
  }

  /** The value of `set key v1 v2 ...`: the words from the fourth on, joined by single spaces and trimmed. */
  function SetValue(words: seq<string>): string
    requires |words| >= 4
  {
    Trim(Join(words[3..], " "))
  }

  /** The switch on `words[1]` with its argument guards: what the sub-request asks of the store. */
  function Decide(words: seq<string>): (r: Decision)
    requires |words| >= 2
    ensures r.Run? && |words| < 3 ==> words[1] == "getall" || words[1] == "delall"
    ensures r.Run? && r.call.Load? ==> |words| >= 4
  {
    match words[1]
    case "get" => if |words| < 3 then Reject(MissingKey) else Run(Select(words[2]))
    case "getdir" => if |words| < 3 then Reject(MissingKey) else Run(ListDir(words[2]))
    case "getall" => Run(ListAll)
    case "set" =>
      if |words| < 3 then Reject(MissingKey)
      else if |words| == 3 then Run(Add(words[2], None))
      else Run(Add(words[2], Some(SetValue(words))))
    case "delall" => Run(RemoveAll)
    case "deldir" => if |words| < 3 then Reject(MissingKey) else Run(RemoveDir(words[2]))
    case "save" => if |words| < 3 then Reject(MissingKey) else Run(Save(words[2]))
    case "load" =>
      if |words| < 4 then Reject(LoadMissingArgs)
      else (match LoadOverride(words[3])
        case None => Reject(BadOverride)
        case Some(b) => Run(Load(b, words[2])))
    case "loadall" =>
      if |words| < 3 then Reject(LoadAllMissingArg)
      else (match LoadAllOverride(words[2])
        case None => Reject(BadOverride)
        case Some(b) => Run(LoadAll(b)))
    case "purge" => if |words| < 3 then Reject(PurgeMissingKey) else Run(Purge(words[2]))
    case _ => Usage
  }

  /** The store calls a decision makes: one for `Run`, none otherwise. */
  function CallsOf(d: Decision): (cs: seq<Call>)
    ensures |cs| <= 1
  {
    if d.Run? then [d.call] else []
  }

  /** One record as the handler prints it: `$"{Key} {Value}"`, a null value printing as nothing. */
  function RecordLine(r: Record): string {
    r.key + " " + (if r.value.Some? then r.value.value else "")
  }

  /** The records of a listing, one line each, in the store's order. */
  function RecordLines(list: seq<Record>): (ls: seq<string>)
    ensures |ls| == |list|
  {
    seq(|list|, i requires 0 <= i < |list| => RecordLine(list[i]))
  }

  /** The report of save, load, loadall and purge: the success or the failure text, then the store's message. */
  function StatusLine(done: string, failed: string, st: Status): string {
    (if st.ok then done else failed) + st.message
  }

  /** The response lines of store call `c` once the store has replied `r`. */
  function Respond(c: Call, r: Reply): (ls: seq<string>)
    ensures c.Select? ==> |ls| <= 1
    ensures (c.ListDir? || c.ListAll?) && r.RecordsReply? ==> |ls| == |r.recs|
    ensures !c.Select? && !c.ListDir? && !c.ListAll? && (r.StatusReply? || c.Add? || c.RemoveAll? || c.RemoveDir?) ==> |ls| == 1
  {
    match c
    case Select(_) =>
      if r.ItemReply? && r.rec.value.Some? then [r.rec.key + " " + r.rec.value.value] else []
    case ListDir(_) => if r.RecordsReply? then RecordLines(r.recs) else []
    case ListAll => if r.RecordsReply? then RecordLines(r.recs) else []
    case Add(k, None) => ["Variable (" + k + ") is deleted"]
    case Add(k, Some(v)) => ["Variable is added: " + k + " -> " + v]
    case RemoveAll => ["Database is purged"]
    case RemoveDir(k) => ["Directory (" + k + ") is purged"]
    case Save(_) => if r.StatusReply? then [StatusLine("Save is done: ", "ERROR: Save is failed: ", r.st)] else []
    case Load(_, _) => if r.StatusReply? then [StatusLine("Load is done: ", "ERROR: Load is failed: ", r.st)] else []
    case LoadAll(_) => if r.StatusReply? then [StatusLine("Load is done: ", "ERROR: Load is failed: ", r.st)] else []
    case Purge(_) => if r.StatusReply? then [StatusLine("Purge is done: ", "ERROR: Purge is failed: ", r.st)] else []
  }

  /** The lines written for decision `d`, the store answering as `o` after the calls `h`. */
  function LinesOf(d: Decision, o: Oracle, h: seq<Call>): (ls: seq<string>)
    ensures d.Usage? ==> |ls| == 12
    ensures d.Reject? ==> ls == [d.error]
    ensures d.Run? && !d.call.Select? && !d.call.ListDir? && !d.call.ListAll? ==> |ls| == 1
  {
    match d
    case Usage => UnknownActionText
    case Reject(e) => [e]
    case Run(c) => Respond(c, Answer(o, h, c))
  }

  /** The words joined as the `set` loop builds them: each followed by one space. */
  function Spaced(ws: seq<string>): string {
    if ws == [] then "" else Spaced(ws[..|ws| - 1]) + ws[|ws| - 1] + " "
  }

  /** The words each followed by one space are the words joined by single spaces, plus one trailing space. */
  lemma {:induction false} SpacedJoin(ws: seq<string>)
    requires ws != []
    ensures Spaced(ws) == Join(ws, " ") + " "
    decreases |ws|
  {
    var init, last := ws[..|ws| - 1], ws[|ws| - 1];
    assert ws == init + [last];
    assert Spaced(ws) == Spaced(init) + last + " ";
    JoinSnoc(init, last, " ");
    if init == [] {
      assert Join(ws, " ") == last;
      assert Spaced(init) == "";
    } else {
      assert Join(ws, " ") == Join(init, " ") + " " + last;
      SpacedJoin(init);
      assert Spaced(init) == Join(init, " ") + " ";
    }
  }

  /** The `value += $"{words[i]} "` loop of `set`, then `Trim()`. */
  method BuildValue(words: seq<string>) returns (value: string)
    requires |words| >= 4
    ensures value == Trim(Join(words[3..], " "))
  {
    value := "";
    for i := 3 to |words|
      invariant value == Spaced(words[3..i])
    {
      assert words[3..i + 1][..i - 3] == words[3..i];
      value := value + words[i] + " ";
    }
    assert words[3..|words|] == words[3..];
    SpacedJoin(words[3..]);
    TrimTrailingSpace(Join(words[3..], " "));
    value := Trim(value);
  }

  /** The `foreach(var item in list) WriteLine(...)` loop of getdir and getall. */
  method WriteRecords(out: Writer, list: seq<Record>)
    modifies out
    ensures out.lines == old(out.lines) + RecordLines(list)
  {
    for i := 0 to |list|
      invariant out.lines == old(out.lines) + RecordLines(list[..i])
    {
      assert RecordLines(list[..i + 1]) == RecordLines(list[..i]) + [RecordLine(list[i])];
      out.WriteLine(RecordLine(list[i]));
    }
    assert list[..|list|] == list;
  }

  /** The `if (status.ok) ... else ...` report of save, load, loadall and purge. */
  method WriteStatus(out: Writer, status: Status, done: string, failed: string)
    modifies out
    ensures out.lines == old(out.lines) + [StatusLine(done, failed, status)]
  {
    if status.ok {
      out.WriteLine(done + status.message);
    } else {
      out.WriteLine(failed + status.message);
    }
  }

  /** `get key`: the value of one key, or nothing when the store has none. */
  method Get(words: seq<string>, db: MemoryDb, out: Writer)
    requires |words| >= 2 && words[1] == "get"
    modifies db, out
    ensures db.trace == old(db.trace) + CallsOf(Decide(words))
    ensures out.lines == old(out.lines) + LinesOf(Decide(words), db.oracle, old(db.trace))
  {
    if |words| < 3 {
      out.WriteLine(MissingKey);
    } else {
      var item := db.Select(words[2]);
      if item.value.Some? {
        out.WriteLine(item.key + " " + item.value.value);
      }
    }
  }

  /** `getdir prefix`: every record under a prefix. */
  method GetDir(words: seq<string>, db: MemoryDb, out: Writer)
    requires |words| >= 2 && words[1] == "getdir"
    modifies db, out
    ensures db.trace == old(db.trace) + CallsOf(Decide(words))
    ensures out.lines == old(out.lines) + LinesOf(Decide(words), db.oracle, old(db.trace))
  {
    if |words| < 3 {
      out.WriteLine(MissingKey);
    } else {
      var list := db.ListDir(words[2]);
      WriteRecords(out, list);
    }
  }

  /** `getall`: every record. */
  method GetAll(words: seq<string>, db: MemoryDb, out: Writer)
    requires |words| >= 2 && words[1] == "getall"
    modifies db, out
    ensures db.trace == old(db.trace) + CallsOf(Decide(words))
    ensures out.lines == old(out.lines) + LinesOf(Decide(words), db.oracle, old(db.trace))
  {
    var list := db.ListAll();
    WriteRecords(out, list);
  }

  /** `set key [v1 v2 ...]`: add a variable, or delete it when no value follows the key. */
  method Set(words: seq<string>, db: MemoryDb, out: Writer)
    requires |words| >= 2 && words[1] == "set"
    modifies db, out
    ensures db.trace == old(db.trace) + CallsOf(Decide(words))
    ensures out.lines == old(out.lines) + LinesOf(Decide(words), db.oracle, old(db.trace))
  {
    if |words| < 3 {
      out.WriteLine(MissingKey);
    } else if |words| == 3 {
      SetWithoutValue(words, db.oracle, db.trace);
      db.Add(words[2], None);
      out.WriteLine("Variable (" + words[2] + ") is deleted");
    } else {
      SetWithValue(words, db.oracle, db.trace);
      var value := BuildValue(words);
      db.Add(words[2], Some(value));
      out.WriteLine("Variable is added: " + words[2] + " -> " + value);
    }
  }

  /** `delall`: empty the store. */
  method DelAll(words: seq<string>, db: MemoryDb, out: Writer)
    requires |words| >= 2 && words[1] == "delall"
    modifies db, out
    ensures db.trace == old(db.trace) + CallsOf(Decide(words))
    ensures out.lines == old(out.lines) + LinesOf(Decide(words), db.oracle, old(db.trace))
  {
    db.RemoveAll();
    out.WriteLine("Database is purged");
  }

  /** `deldir prefix`: remove every record under a prefix. */
  method DelDir(words: seq<string>, db: MemoryDb, out: Writer)
    requires |words| >= 2 && words[1] == "deldir"
    modifies db, out
    ensures db.trace == old(db.trace) + CallsOf(Decide(words))
    ensures out.lines == old(out.lines) + LinesOf(Decide(words), db.oracle, old(db.trace))
  {
    if |words| < 3 {
      out.WriteLine(MissingKey);
    } else {
      db.RemoveDir(words[2]);
      out.WriteLine("Directory (" + words[2] + ") is purged");
    }
  }

  /** `save key`: write one variable to its file. */
  method SaveKey(words: seq<string>, db: MemoryDb, out: Writer)
    requires |words| >= 2 && words[1] == "save"
    modifies db, out
    ensures db.trace == old(db.trace) + CallsOf(Decide(words))
    ensures out.lines == old(out.lines) + LinesOf(Decide(words), db.oracle, old(db.trace))
  {
    if |words| < 3 {
      out.WriteLine(MissingKey);
    } else {
      var status := db.Save(words[2]);
      WriteStatus(out, status, "Save is done: ", "ERROR: Save is failed: ");
    }
  }

  /** `load key true|false`: read one variable back, the flag saying whether to override. */
  method LoadKey(words: seq<string>, db: MemoryDb, out: Writer)
    requires |words| >= 2 && words[1] == "load"
    modifies db, out
    ensures db.trace == old(db.trace) + CallsOf(Decide(words))
    ensures out.lines == old(out.lines) + LinesOf(Decide(words), db.oracle, old(db.trace))
  {
    if |words| < 4 {
      out.WriteLine(LoadMissingArgs);
    } else {
      var replace := if words[3] == "true" then Some(true) else if words[3] == "false" then Some(false) else None;
      assert replace == LoadOverride(words[3]);
      if replace == None {
        out.WriteLine(BadOverride);
      } else {
        var status := db.Load(replace.value, words[2]);
        WriteStatus(out, status, "Load is done: ", "ERROR: Load is failed: ");
      }
    }
  }

  /** `loadall true|falase`: read every saved variable back. */
  method LoadEvery(words: seq<string>, db: MemoryDb, out: Writer)
    requires |words| >= 2 && words[1] == "loadall"
    modifies db, out
    ensures db.trace == old(db.trace) + CallsOf(Decide(words))
    ensures out.lines == old(out.lines) + LinesOf(Decide(words), db.oracle, old(db.trace))
  {
    if |words| < 3 {
      out.WriteLine(LoadAllMissingArg);
    } else {
      var replace := if words[2] == "true" then Some(true) else if words[2] == "falase" then Some(false) else None;
      assert replace == LoadAllOverride(words[2]);
      if replace == None {
        out.WriteLine(BadOverride);
      } else {
        var status := db.LoadAll(replace.value);
        WriteStatus(out, status, "Load is done: ", "ERROR: Load is failed: ");
      }
    }
  }

  /** `purge key`: delete one variable's saved file. */
  method PurgeKey(words: seq<string>, db: MemoryDb, out: Writer)
    requires |words| >= 2 && words[1] == "purge"
    modifies db, out
    ensures db.trace == old(db.trace) + CallsOf(Decide(words))
    ensures out.lines == old(out.lines) + LinesOf(Decide(words), db.oracle, old(db.trace))
  {
    if |words| < 3 {
      out.WriteLine(PurgeMissingKey);
    } else {
      var status := db.Purge(words[2]);
      WriteStatus(out, status, "Purge is done: ", "ERROR: Purge is failed: ");
    }
  }

  /** The switch of `HandleRequest` for a sub-request of two or more words, writing to the opened output `out`. */
  method Dispatch(words: seq<string>, db: MemoryDb, out: Writer)
    requires |words| >= 2
    modifies db, out
    ensures db.trace == old(db.trace) + CallsOf(Decide(words))
    ensures out.lines == old(out.lines) + LinesOf(Decide(words), db.oracle, old(db.trace))
  {
    match words[1]
    case "get" => Get(words, db, out);
    case "getdir" => GetDir(words, db, out);
    case "getall" => GetAll(words, db, out);
    case "set" => Set(words, db, out);
    case "delall" => DelAll(words, db, out);
    case "deldir" => DelDir(words, db, out);
    case "save" => SaveKey(words, db, out);
    case "load" => LoadKey(words, db, out);
    case "loadall" => LoadEvery(words, db, out);
    case "purge" => PurgeKey(words, db, out);
    case _ =>
      DecideKinds(words);
      out.WriteAll(UnknownActionText);
  }

  /** The source's two copies of the action list agree line for line, and each has twelve lines. */
  lemma UsageTextsAgree()
    ensures MissingActionText == UnknownActionText
    ensures |UnknownActionText| == 12
  {
  }

  /** The action list is written exactly for an unknown verb; only getall and delall run with no argument. */
  lemma DecideKinds(words: seq<string>)
    requires |words| >= 2
    ensures Decide(words).Usage? <==> words[1] !in Verbs
    ensures Decide(words).Run? && |words| < 3 ==> words[1] == "getall" || words[1] == "delall"
  {
  }

  /** An unknown verb writes the action list of the one-word case and calls nothing. */
  lemma UnknownVerb(words: seq<string>, o: Oracle, h: seq<Call>)
    requires |words| >= 2 && words[1] !in Verbs
    ensures CallsOf(Decide(words)) == []
    ensures LinesOf(Decide(words), o, h) == MissingActionText
  {
    DecideKinds(words);
    UsageTextsAgree();
  }

  /** An empty second word is no verb: the action list is written. */
  lemma EmptyVerbIsUsage(words: seq<string>)
    requires |words| >= 2 && words[1] == ""
    ensures Decide(words) == Usage
  {
    assert "" !in Verbs;
    DecideKinds(words);
  }

  /** The argument guards: too few words give one ERROR line and no store call. */
  lemma ArgumentGuards(words: seq<string>, o: Oracle, h: seq<Call>)
    requires |words| >= 2
    ensures words[1] in {"get", "getdir", "set", "deldir", "save"} && |words| < 3 ==>
      CallsOf(Decide(words)) == [] && LinesOf(Decide(words), o, h) == ["ERROR: Missing key"]
    ensures words[1] == "purge" && |words| < 3 ==>
      CallsOf(Decide(words)) == [] && LinesOf(Decide(words), o, h) == ["ERROR: missing key"]
    ensures words[1] == "load" && |words| < 4 ==>
      CallsOf(Decide(words)) == [] && LinesOf(Decide(words), o, h) == ["ERROR: Missing key or override value"]
    ensures words[1] == "loadall" && |words| < 3 ==>
      CallsOf(Decide(words)) == [] && LinesOf(Decide(words), o, h) == ["ERROR: missing override value"]
  {
  }

  /** A sub-request is rejected exactly when a guard fails or an override token is not recognised. */
  lemma RejectedExactly(words: seq<string>)
    requires |words| >= 2
    ensures Decide(words).Reject? <==>
      (words[1] in {"get", "getdir", "set", "deldir", "save", "purge", "loadall"} && |words| < 3)
      || (words[1] == "load" && (|words| < 4 || words[3] !in {"true", "false"}))
      || (words[1] == "loadall" && |words| >= 3 && words[2] !in {"true", "falase"})
  {
  }

  /** A rejected or unknown request never reaches the store; every other request makes exactly one call. */
  lemma AtMostOneCall(words: seq<string>)
    requires |words| >= 2
    ensures |CallsOf(Decide(words))| == if words[1] in Verbs && !Decide(words).Reject? then 1 else 0
  {
    DecideKinds(words);
  }

  /** A rejected request writes one line, one of the guards' errors. */
  lemma RejectWritesError(words: seq<string>, o: Oracle, h: seq<Call>)
    requires |words| >= 2 && Decide(words).Reject?
    ensures LinesOf(Decide(words), o, h) == [Decide(words).error]
    ensures Decide(words).error in Errors
  {
  }

  /** What `set` asks of the store, by word count. */
  lemma DecideSet(words: seq<string>)
    requires |words| >= 3 && words[1] == "set"
    ensures Decide(words) == Run(Add(words[2], if |words| == 3 then None else Some(SetValue(words))))
  {
  }

  /** `set key` with no value deletes the key. */
  lemma SetWithoutValue(words: seq<string>, o: Oracle, h: seq<Call>)
    requires |words| == 3 && words[1] == "set"
    ensures CallsOf(Decide(words)) == [Add(words[2], None)]
    ensures LinesOf(Decide(words), o, h) == ["Variable (" + words[2] + ") is deleted"]
  {
  }

  /** `set key v1 v2 ...` writes the value words joined by single spaces and trimmed. */
  lemma SetWithValue(words: seq<string>, o: Oracle, h: seq<Call>)
    requires |words| >= 4 && words[1] == "set"
    ensures CallsOf(Decide(words)) == [Add(words[2], Some(SetValue(words)))]
    ensures LinesOf(Decide(words), o, h) == ["Variable is added: " + words[2] + " -> " + SetValue(words)]
  {
    DecideSet(words);
    AddedLine(words[2], SetValue(words), o, h);
  }

  /** The line `set` writes once a value is stored: the key, an arrow, the value. */
  lemma AddedLine(k: string, v: string, o: Oracle, h: seq<Call>)
    ensures LinesOf(Run(Add(k, Some(v))), o, h) == ["Variable is added: " + k + " -> " + v]
  {
  }

  /** `load` takes exactly "true" or "false"; `loadall` takes "true" or "falase", so "false" is refused. */
  lemma OverrideTokens(words: seq<string>, o: Oracle, h: seq<Call>)
    requires |words| >= 3
    ensures words[1] == "load" && |words| >= 4 ==>
      (Decide(words) == Run(Load(true, words[2])) <==> words[3] == "true")
      && (Decide(words) == Run(Load(false, words[2])) <==> words[3] == "false")
      && (Decide(words) == Reject(BadOverride) <==> words[3] != "true" && words[3] != "false")
    ensures words[1] == "loadall" ==>
      (Decide(words) == Run(LoadAll(true)) <==> words[2] == "true")
      && (Decide(words) == Run(LoadAll(false)) <==> words[2] == "falase")
      && (Decide(words) == Reject(BadOverride) <==> words[2] != "true" && words[2] != "falase")
    ensures words[1] == "loadall" && words[2] == "false" ==>
      CallsOf(Decide(words)) == [] && LinesOf(Decide(words), o, h) == ["ERROR: override can be true or false"]
  {
  }

  /** Save, load, loadall and purge report the store's status: "<Op> is done" on success, "ERROR: <Op> is failed" otherwise. */
  lemma StatusReports(words: seq<string>, o: Oracle, h: seq<Call>)
    requires |words| >= 2 && Decide(words).Run?
    ensures var st := o.status(h, Decide(words).call);
      && (words[1] == "save" ==>
            LinesOf(Decide(words), o, h) == [if st.ok then "Save is done: " + st.message else "ERROR: Save is failed: " + st.message])
      && (words[1] in {"load", "loadall"} ==>
            LinesOf(Decide(words), o, h) == [if st.ok then "Load is done: " + st.message else "ERROR: Load is failed: " + st.message])
      && (words[1] == "purge" ==>
            LinesOf(Decide(words), o, h) == [if st.ok then "Purge is done: " + st.message else "ERROR: Purge is failed: " + st.message])
  {
  }

  /** `get` writes the record found when it has a value, and nothing otherwise. */
  lemma GetLines(words: seq<string>, o: Oracle, h: seq<Call>)
    requires |words| >= 3 && words[1] == "get"
    ensures CallsOf(Decide(words)) == [Select(words[2])]
    ensures var item := o.item(h, words[2]);
      LinesOf(Decide(words), o, h) == if item.value.Some? then [item.key + " " + item.value.value] else []
  {
  }
}
