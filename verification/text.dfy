/** Text helpers for building descriptions. */
module Text {

  /** The parts in order, with sep between neighbours: what appending each
      part to a Description, preceded by sep from the second part on,
      produces. */
  function Join(sep: string, parts: seq<string>): string
    decreases |parts|
  {
    if |parts| == 0 then ""
    else if |parts| == 1 then parts[0]
    else Join(sep, parts[..|parts| - 1]) + sep + parts[|parts| - 1]
  }

  /** Appending one more part extends the joined text by the separator (when
      something came before) and the part. */
  lemma JoinSnoc(sep: string, parts: seq<string>, p: string)
    ensures Join(sep, parts + [p]) == (if |parts| == 0 then p else Join(sep, parts) + sep + p)
  {
    assert (parts + [p])[..|parts|] == parts;
  }
}
