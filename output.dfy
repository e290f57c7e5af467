/** The response side: a caller's output pipe, opened for writing, and what reached it. */
module Output {
  /** An output path opened for writing (`FileStream` plus `StreamWriter`); `lines` is what has been written so far. */
  class Writer {
    const path: string
    var lines: seq<string>

    constructor Open(path: string)
      ensures this.path == path && lines == []
    {
      this.path := path;
      lines := [];
    }

    /** `StreamWriter.WriteLine`. */
    method WriteLine(s: string)
      modifies this
      ensures lines == old(lines) + [s]
    {
      lines := lines + [s];
    }

    /** Successive `WriteLine` calls, one per element of `ls`. */
    method WriteAll(ls: seq<string>)
      modifies this
      ensures lines == old(lines) + ls
    {
      for i := 0 to |ls|
        invariant lines == old(lines) + ls[..i]
      {
        WriteLine(ls[i]);
        assert ls[..i + 1] == ls[..i] + [ls[i]];
      }
    }
  }

  /** One closed response: the path that was opened and every line written to it, in order. */
  datatype Delivery = Delivery(path: string, lines: seq<string>)
}
