/**
 * The string operation `from_credentials` relies on, `str::splitn`: splitting
 * on a character at most a given number of times. `Find` is the search for
 * the next separator that `splitn` performs. Positions here count characters,
 * not the UTF-8 byte offsets Rust's string indices use; the pieces are the
 * same either way.
 */
module Text {
  import opened Prelude

  /** The character position of the first occurrence of `c` in `s`, if any. */
  function Find(s: string, c: char): (r: Option<nat>)
    ensures r.Some? ==> r.value < |s| && s[r.value] == c && c !in s[..r.value]
    ensures r.None? <==> c !in s
    decreases |s|
  {
    if |s| == 0 then None
    else if s[0] == c then Some(0)
    else
      match Find(s[1..], c)
      case None => None
      case Some(i) => Some(i + 1)
  }

  /** The pieces of a split put back together, each pair joined by `sep`. */
  function Join(parts: seq<string>, sep: char): string
    decreases |parts|
  {
    if |parts| == 0 then []
    else if |parts| == 1 then parts[0]
    else parts[0] + [sep] + Join(parts[1..], sep)
  }

  /**
   * `s.splitn(n, sep)`: the pieces between the first `n - 1` separators, the
   * last piece being whatever remains. Putting the pieces back together gives
   * `s`; every piece but the last is free of `sep`, and so is the last when
   * the split stopped short of `n` pieces.
   */
  function SplitN(s: string, n: nat, sep: char): (parts: seq<string>)
    ensures |parts| <= n
    ensures n > 0 ==> |parts| >= 1
    ensures n > 0 ==> Join(parts, sep) == s
    ensures forall i :: 0 <= i < |parts| - 1 ==> sep !in parts[i]
    ensures |parts| < n ==> forall i :: 0 <= i < |parts| ==> sep !in parts[i]
    decreases n
  {
    if n == 0 then []
    else if n == 1 then [s]
    else
      match Find(s, sep)
      case None => [s]
      case Some(i) =>
        var rest := SplitN(s[i + 1..], n - 1, sep);
        SplitCons(s, i, sep, rest);
        [s[..i]] + rest
  }

  lemma JoinCons(first: string, rest: seq<string>, sep: char)
    requires |rest| > 0
    ensures Join([first] + rest, sep) == first + [sep] + Join(rest, sep)
  {
    assert ([first] + rest)[1..] == rest;
  }

  /** One cut at the first separator, followed by the pieces of what follows it. */
  lemma SplitCons(s: string, i: nat, sep: char, rest: seq<string>)
    requires i < |s| && s[i] == sep && sep !in s[..i]
    requires |rest| > 0 && Join(rest, sep) == s[i + 1..]
    requires forall k :: 0 <= k < |rest| - 1 ==> sep !in rest[k]
    ensures Join([s[..i]] + rest, sep) == s
    ensures forall k :: 0 <= k < |[s[..i]] + rest| - 1 ==> sep !in ([s[..i]] + rest)[k]
  {
    JoinCons(s[..i], rest, sep);
    assert s == s[..i] + [sep] + s[i + 1..];
  }

  /** An iterator from `splitn` with a positive bound always yields a first piece. */
  lemma SplitNNonEmpty(s: string, n: nat, sep: char)
    requires n > 0
    ensures |SplitN(s, n, sep)| >= 1
  {
  }

  /** `splitn(2, sep)` cuts at the first separator, or not at all when there is none. */
  lemma SplitTwo(s: string, sep: char)
    ensures sep !in s ==> SplitN(s, 2, sep) == [s]
    ensures sep in s ==> exists i :: 0 <= i < |s| && s[i] == sep && sep !in s[..i]
                                     && SplitN(s, 2, sep) == [s[..i], s[i + 1..]]
  {
    var r := Find(s, sep);
    if r.Some? {
      var i := r.value;
      assert SplitN(s[i + 1..], 1, sep) == [s[i + 1..]];
    }
  }

  /** A separator-free first part is cut off exactly at the separator that follows it. */
  lemma SplitTwoAfter(first: string, rest: string, sep: char)
    requires sep !in first
    ensures SplitN(first + [sep] + rest, 2, sep) == [first, rest]
  {
    var s := first + [sep] + rest;
    assert s[|first|] == sep;
    SplitTwo(s, sep);
    assert s[..|first|] == first && s[|first| + 1..] == rest;
  }
}
