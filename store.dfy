/**
 * The key-value store the handler talks to (`MemoryDb`, an external
 * library). Nothing is assumed about how it behaves: the model records the
 * calls it receives, in order, and each reply is an arbitrary function of
 * the calls made before it and of the call itself.
 */
module Store {
  import opened Options

  /** One call the handler makes on the store. `Add(key, None)` is `db.Add(key, null)`. */
  datatype Call =
    | Select(key: string)
    | ListDir(prefix: string)
    | ListAll
    | Add(key: string, value: Option<string>)
    | RemoveAll
    | RemoveDir(prefix: string)
    | Save(key: string)
    | Load(replace: bool, key: string)
    | LoadAll(replace: bool)
    | Purge(key: string)

  /** A key-value pair as the store returns it; a null value is `None`, a null key reads as "". */
  datatype Record = Record(key: string, value: Option<string>)

  /** The outcome of save, load, loadall and purge. */
  datatype Status = Status(ok: bool, message: string)

  /** The store's answers: for each history of earlier calls, what each query returns. */
  datatype Oracle = Oracle(
    item: (seq<Call>, string) -> Record,
    records: (seq<Call>, Call) -> seq<Record>,
    status: (seq<Call>, Call) -> Status)

  /** What the store hands back for one call. */
  datatype Reply =
    | ItemReply(rec: Record)
    | RecordsReply(recs: seq<Record>)
    | StatusReply(st: Status)
    | NoReply

  /** The reply to call `c` made after the calls `h`. */
  function Answer(o: Oracle, h: seq<Call>, c: Call): (r: Reply)
    ensures c.Select? <==> r.ItemReply?
    ensures (c.ListDir? || c.ListAll?) <==> r.RecordsReply?
    ensures (c.Save? || c.Load? || c.LoadAll? || c.Purge?) <==> r.StatusReply?
  {
    match c
    case Select(k) => ItemReply(o.item(h, k))
    case ListDir(_) => RecordsReply(o.records(h, c))
    case ListAll => RecordsReply(o.records(h, c))
    case Add(_, _) => NoReply
    case RemoveAll => NoReply
    case RemoveDir(_) => NoReply
    case Save(_) => StatusReply(o.status(h, c))
    case Load(_, _) => StatusReply(o.status(h, c))
    case LoadAll(_) => StatusReply(o.status(h, c))
    case Purge(_) => StatusReply(o.status(h, c))
  }

  /** The store: every call is appended to `trace`, and answered by `oracle` from the calls before it. */
  class MemoryDb {
    const oracle: Oracle
    var trace: seq<Call>

    constructor (oracle: Oracle)
      ensures this.oracle == oracle && trace == []
    {
      this.oracle := oracle;
      trace := [];
    }

    method Select(key: string) returns (item: Record)
      modifies this
      ensures trace == old(trace) + [Call.Select(key)]
      ensures ItemReply(item) == Answer(oracle, old(trace), Call.Select(key))
    {
      item := oracle.item(trace, key);
      trace := trace + [Call.Select(key)];
    }

    method ListDir(prefix: string) returns (list: seq<Record>)
      modifies this
      ensures trace == old(trace) + [Call.ListDir(prefix)]
      ensures RecordsReply(list) == Answer(oracle, old(trace), Call.ListDir(prefix))
    {
      list := oracle.records(trace, Call.ListDir(prefix));
      trace := trace + [Call.ListDir(prefix)];
    }

    method ListAll() returns (list: seq<Record>)
      modifies this
      ensures trace == old(trace) + [Call.ListAll]
      ensures RecordsReply(list) == Answer(oracle, old(trace), Call.ListAll)
    {
      list := oracle.records(trace, Call.ListAll);
      trace := trace + [Call.ListAll];
    }

    method Add(key: string, value: Option<string>)
      modifies this
      ensures trace == old(trace) + [Call.Add(key, value)]
    {
      trace := trace + [Call.Add(key, value)];
    }

    method RemoveAll()
      modifies this
      ensures trace == old(trace) + [Call.RemoveAll]
    {
      trace := trace + [Call.RemoveAll];
    }

    method RemoveDir(prefix: string)
      modifies this
      ensures trace == old(trace) + [Call.RemoveDir(prefix)]
    {
      trace := trace + [Call.RemoveDir(prefix)];
    }

    method Save(key: string) returns (status: Status)
      modifies this
      ensures trace == old(trace) + [Call.Save(key)]
      ensures StatusReply(status) == Answer(oracle, old(trace), Call.Save(key))
    {
      status := oracle.status(trace, Call.Save(key));
      trace := trace + [Call.Save(key)];
    }

    method Load(replace: bool, key: string) returns (status: Status)
      modifies this
      ensures trace == old(trace) + [Call.Load(replace, key)]
      ensures StatusReply(status) == Answer(oracle, old(trace), Call.Load(replace, key))
    {
      status := oracle.status(trace, Call.Load(replace, key));
      trace := trace + [Call.Load(replace, key)];
    }

    method LoadAll(replace: bool) returns (status: Status)
      modifies this
      ensures trace == old(trace) + [Call.LoadAll(replace)]
      ensures StatusReply(status) == Answer(oracle, old(trace), Call.LoadAll(replace))
    {
      status := oracle.status(trace, Call.LoadAll(replace));
      trace := trace + [Call.LoadAll(replace)];
    }

    method Purge(key: string) returns (status: Status)
      modifies this
      ensures trace == old(trace) + [Call.Purge(key)]
      ensures StatusReply(status) == Answer(oracle, old(trace), Call.Purge(key))
    {
      status := oracle.status(trace, Call.Purge(key));
      trace := trace + [Call.Purge(key)];
    }
  }
}
