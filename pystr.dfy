/**
 * The two Python string built-ins that `resolve_address` relies on:
 * `str.rsplit(sep, 1)` and `str.join` over a generator of prefixed parts.
 */
module PyStr {
  import opened Wrappers

  /** Position of the last `c` in `s` (Python's `s.rfind(c)`, with None for -1). */
  function LastIndexOf(s: string, c: char): (r: Option<nat>)
    ensures r.None? ==> c !in s
    ensures r.Some? ==> r.value < |s| && s[r.value] == c
    ensures r.Some? ==> forall j :: r.value < j < |s| ==> s[j] != c
  {
    if s == [] then None
    else if s[|s| - 1] == c then Some(|s| - 1)
    else
      assert s == s[..|s| - 1] + [s[|s| - 1]];
      LastIndexOf(s[..|s| - 1], c)
  }

  /**
   * `s.rsplit(sep, 1)`: one part when `sep` does not occur, otherwise the
   * text before and the text after the LAST `sep`.
   */
  function RSplitOnce(s: string, sep: char): (parts: seq<string>)
    ensures |parts| == 1 || |parts| == 2
    ensures |parts| == 1 <==> sep !in s
    ensures |parts| == 1 ==> parts[0] == s
    ensures |parts| == 2 ==> parts[0] + [sep] + parts[1] == s && sep !in parts[1]
  {
    match LastIndexOf(s, sep)
    case None => [s]
    case Some(i) =>
      assert s == s[..i] + [sep] + s[i + 1..];
      [s[..i], s[i + 1..]]
  }

  /**
   * Every part behind the prefix, concatenated (Python's `"".join` over the
   * prefixed parts): nothing for no parts, `prefix + part` for one part.
   */
  function JoinPrefixed(prefix: string, parts: seq<string>): (r: string)
    ensures parts == [] ==> r == ""
    ensures |parts| == 1 ==> r == prefix + parts[0]
  {
    if parts == [] then "" else prefix + parts[0] + JoinPrefixed(prefix, parts[1..])
  }

  /** Whatever precedes the last separator, the split happens exactly there. */
  lemma {:induction false} RSplitOnceAtLast(a: string, sep: char, b: string)
    requires sep !in b
    ensures RSplitOnce(a + [sep] + b, sep) == [a, b]
  {
    var s := a + [sep] + b;
    assert s[|a|] == sep;
    var i := LastIndexOf(s, sep);
    assert i.Some?;
    assert forall j :: |a| < j < |s| ==> s[j] == b[j - |a| - 1];
    assert i.value == |a|;
    assert s[..|a|] == a;
    assert s[|a| + 1..] == b;
  }
}
