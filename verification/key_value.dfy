/** `splitByEquals` (jakobmenu.c): the one key/value splitter both file
    formats use. */
module KeyValue {
  import opened Wrappers
  import opened Text

  datatype Pair = Pair(key: string, value: string)

  /** `i` is the first `=` of `line`, and `p` holds the trimmed text on
      either side of it. */
  predicate SplitsAt(line: string, i: int, p: Pair) {
    && 0 <= i < |line| && line[i] == '=' && '=' !in line[..i]
    && p.key == Trim(line[..i]) && p.value == Trim(line[i + 1..])
  }

  /** A line splits iff it holds an `=`. The key is the trimmed text before
      the first `=`, so it never holds one; the value is the trimmed text
      after it and may hold further `=`. */
  function SplitByEquals(line: string): (r: Option<Pair>)
    ensures r.None? <==> '=' !in line
    ensures r.Some? ==> exists i :: SplitsAt(line, i, r.value)
    ensures r.Some? ==> '=' !in r.value.key
  {
    match IndexOf(line, '=')
    case None => None
    case Some(i) =>
      var key := Trim(line[..i]);
      var value := Trim(line[i + 1..]);
      assert '=' !in key;
      assert SplitsAt(line, i, Pair(key, value));
      Some(Pair(key, value))
  }

  /** Round trip: a key without `=` and a value, each already trimmed and
      padded with any whitespace around the `=`, split back into themselves. */
  lemma SplitOfPadded(w1: string, key: string, w2: string, w3: string, value: string, w4: string)
    requires AllSpace(w1) && AllSpace(w2) && AllSpace(w3) && AllSpace(w4)
    requires '=' !in key
    requires Trimmed(key) && Trimmed(value)
    ensures SplitByEquals(w1 + key + w2 + ['='] + w3 + value + w4) == Some(Pair(key, value))
  {
    var before := w1 + key + w2;
    var after := w3 + value + w4;
    assert w1 + key + w2 + ['='] + w3 + value + w4 == before + ['='] + after;
    SplitOfJoin(before, after);
    TrimPadded(w1, key, w2);
    TrimPadded(w3, value, w4);
  }

  lemma SplitOfJoin(before: string, after: string)
    requires '=' !in before
    ensures SplitByEquals(before + ['='] + after) == Some(Pair(Trim(before), Trim(after)))
  {
    var line := before + ['='] + after;
    assert line[..|before|] == before;
    assert line[|before|] == '=';
    assert IndexOf(line, '=') == Some(|before|);
    assert line[|before| + 1..] == after;
  }
}
