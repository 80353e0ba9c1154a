/** The CSV emitter: fields wrapped in double quotes and joined by commas.
    Both the header and every row are built the same way, by appending
    `"field",` for each field and then popping the trailing comma. */
module Csv {

  /** `format!("\"{}\"", s)`: the text between double quotes, unchanged. */
  function Quote(s: string): string
  {
    "\"" + s + "\""
  }

  /** Each field quoted, in order. */
  function Quoted(fs: seq<string>): seq<string>
  {
    seq(|fs|, i requires 0 <= i < |fs| => Quote(fs[i]))
  }

  /** Reference definition of a CSV line: the fields separated by single
      commas, nothing before the first and nothing after the last. */
  function Join(fs: seq<string>): string
  {
    if |fs| == 0 then ""
    else if |fs| == 1 then fs[0]
    else fs[0] + "," + Join(fs[1..])
  }

  /** What the `push_str` loop has built before the final `pop`: every field
      followed by a comma. */
  function Terminated(fs: seq<string>): string
  {
    if fs == [] then "" else fs[0] + "," + Terminated(fs[1..])
  }

  /** `String::pop`: drops the last character; a no-op on the empty string. */
  function Pop(s: string): string
  {
    if s == "" then s else s[..|s| - 1]
  }

  lemma {:induction false} TerminatedSnoc(fs: seq<string>, f: string)
    ensures Terminated(fs + [f]) == Terminated(fs) + f + ","
  {
    if fs != [] {
      assert (fs + [f])[1..] == fs[1..] + [f];
      TerminatedSnoc(fs[1..], f);
    }
  }

  /** Appending "field," for each field and popping once yields exactly the
      comma-joined line, also for no fields at all. */
  lemma {:induction false} PopTerminatedIsJoin(fs: seq<string>)
    ensures Pop(Terminated(fs)) == Join(fs)
    ensures fs != [] ==> Terminated(fs) == Join(fs) + ","
  {
    if |fs| > 1 {
      PopTerminatedIsJoin(fs[1..]);
    }
  }

  /** A non-empty line ends with its last field: there is no trailing comma. */
  lemma {:induction false} JoinEndsWithLast(fs: seq<string>)
    requires fs != []
    ensures |Join(fs)| >= |fs[|fs| - 1]|
    ensures Join(fs)[|Join(fs)| - |fs[|fs| - 1]|..] == fs[|fs| - 1]
  {
    if |fs| > 1 {
      JoinEndsWithLast(fs[1..]);
    }
  }

  /** `write_header`: each column name quoted (and NOT escaped), joined by
      commas; no columns give the empty line. */
  method WriteHeader(cols: seq<string>) returns (header: string)
    ensures header == Join(Quoted(cols))
    ensures header == "" <==> cols == []
  {
    header := "";
    for k := 0 to |cols|
      invariant header == Terminated(Quoted(cols[..k]))
    {
      assert Quoted(cols[..k + 1]) == Quoted(cols[..k]) + [Quote(cols[k])];
      TerminatedSnoc(Quoted(cols[..k]), Quote(cols[k]));
      header := header + Quote(cols[k]) + ",";
    }
    assert cols[..|cols|] == cols;
    PopTerminatedIsJoin(Quoted(cols));
    header := Pop(header);
    if cols != [] {
      JoinEndsWithLast(Quoted(cols));
    }
  }
}
