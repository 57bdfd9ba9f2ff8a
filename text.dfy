/**
 * The Python string operations the stub generator relies on, on `seq<char>`:
 * `strip`, `rstrip`, `rstrip(c)`, `replace(c, '')`, `split(c)`, `split(c, 1)`,
 * `re.split(r'\s+', s, 1)[0]` and `sep.join(parts)`.
 */
module Text {
  import opened Wrappers

  /**
   * Python's `str.isspace`, which is also what `strip()` removes and what
   * the class `\s` of the `re` module matches in a text pattern.
   */
  predicate IsSpace(c: char) {
    || '\t' <= c <= '\r'
    || '\U{1C}' <= c <= '\U{1F}'
    || c == ' '
    || c == '\U{85}'
    || c == '\U{A0}'
    || c == '\U{1680}'
    || '\U{2000}' <= c <= '\U{200A}'
    || c == '\U{2028}'
    || c == '\U{2029}'
    || c == '\U{202F}'
    || c == '\U{205F}'
    || c == '\U{3000}'
  }

  predicate NoSpace(s: string) {
    forall i :: 0 <= i < |s| ==> !IsSpace(s[i])
  }

  predicate AllSpace(s: string) {
    forall i :: 0 <= i < |s| ==> IsSpace(s[i])
  }

  /** Neither end of `s` is whitespace: the shape of anything `strip()` returns. */
  predicate IsStripped(s: string) {
    s == [] || (!IsSpace(s[0]) && !IsSpace(s[|s| - 1]))
  }

  /** `s.rstrip()`: the longest prefix of `s` that does not end in whitespace. */
  function RStrip(s: string): (r: string)
    ensures r <= s
    ensures forall i :: |r| <= i < |s| ==> IsSpace(s[i])
    ensures r == [] || !IsSpace(r[|r| - 1])
  {
    if s == [] || !IsSpace(s[|s| - 1]) then s else RStrip(s[..|s| - 1])
  }

  /** `s.strip()`: whitespace removed from both ends. */
  function Strip(s: string): (r: string)
    ensures IsStripped(r)
    ensures IsStripped(s) ==> r == s
    ensures r == [] <==> AllSpace(s)
    decreases |s|
  {
    if s == [] then []
    else if IsSpace(s[0]) then
      assert AllSpace(s) <==> AllSpace(s[1..]);
      Strip(s[1..])
    else if IsSpace(s[|s| - 1]) then
      assert AllSpace(s) <==> AllSpace(s[..|s| - 1]);
      Strip(s[..|s| - 1])
    else s
  }

  /** What `strip()` returns is a slice of its input with only whitespace cut off either end. */
  lemma {:induction false} StripIsTrimmedSlice(s: string)
    ensures exists i, j :: 0 <= i <= j <= |s| && Strip(s) == s[i..j] && AllSpace(s[..i]) && AllSpace(s[j..])
    decreases |s|
  {
    if s == [] {
      assert Strip(s) == s[0..0] && AllSpace(s[..0]) && AllSpace(s[0..]);
    } else if IsSpace(s[0]) {
      var t := s[1..];
      assert Strip(s) == Strip(t);
      StripIsTrimmedSlice(t);
      var i, j :| 0 <= i <= j <= |t| && Strip(t) == t[i..j] && AllSpace(t[..i]) && AllSpace(t[j..]);
      SliceOfTail(s, i, j);
      assert Strip(s) == s[i + 1..j + 1] && AllSpace(s[..i + 1]) && AllSpace(s[j + 1..]);
    } else if IsSpace(s[|s| - 1]) {
      var n := |s| - 1;
      var t := s[..n];
      assert Strip(s) == Strip(t);
      StripIsTrimmedSlice(t);
      var i, j :| 0 <= i <= j <= |t| && Strip(t) == t[i..j] && AllSpace(t[..i]) && AllSpace(t[j..]);
      SliceOfFront(s, i, j);
      assert Strip(s) == s[i..j] && AllSpace(s[..i]) && AllSpace(s[j..]);
    } else {
      assert Strip(s) == s[0..|s|] && AllSpace(s[..0]) && AllSpace(s[|s|..]);
    }
  }

  /** Slices of `s[1..]` seen in `s`, when `s` opens with whitespace. */
  lemma SliceOfTail(s: string, i: nat, j: nat)
    requires s != [] && IsSpace(s[0]) && i <= j <= |s| - 1
    requires AllSpace(s[1..][..i]) && AllSpace(s[1..][j..])
    ensures s[1..][i..j] == s[i + 1..j + 1]
    ensures AllSpace(s[..i + 1]) && AllSpace(s[j + 1..])
  {
    assert s[..i + 1] == [s[0]] + s[1..][..i];
    assert s[j + 1..] == s[1..][j..];
  }

  /** Slices of `s[..|s| - 1]` seen in `s`, when `s` closes with whitespace. */
  lemma SliceOfFront(s: string, i: nat, j: nat)
    requires s != [] && IsSpace(s[|s| - 1]) && i <= j <= |s| - 1
    requires AllSpace(s[..|s| - 1][..i]) && AllSpace(s[..|s| - 1][j..])
    ensures s[..|s| - 1][i..j] == s[i..j]
    ensures AllSpace(s[..i]) && AllSpace(s[j..])
  {
    assert s[..|s| - 1][..i] == s[..i];
    assert s[j..] == s[..|s| - 1][j..] + [s[|s| - 1]];
  }

  /** On a text that does not open with whitespace, `strip()` is `rstrip()`. */
  lemma {:induction false} StripIsRStrip(s: string)
    requires s != [] && !IsSpace(s[0])
    ensures Strip(s) == RStrip(s)
    decreases |s|
  {
    var n := |s| - 1;
    if IsSpace(s[n]) {
      assert n > 0;
      assert s[..n][0] == s[0];
      StripIsRStrip(s[..n]);
    }
  }

  lemma {:induction false} RStripEmpty(s: string)
    ensures RStrip(s) == [] <==> AllSpace(s)
  {
    if s != [] && IsSpace(s[|s| - 1]) {
      RStripEmpty(s[..|s| - 1]);
      assert AllSpace(s) <==> AllSpace(s[..|s| - 1]);
    }
  }

  /** `s.rstrip(c)`: `s` without every trailing `c`. */
  function RStripChar(s: string, c: char): (r: string)
    ensures r <= s
    ensures forall i :: |r| <= i < |s| ==> s[i] == c
    ensures r == [] || r[|r| - 1] != c
  {
    if s == [] || s[|s| - 1] != c then s else RStripChar(s[..|s| - 1], c)
  }

  /** `s.replace(c, '')`: `s` with every `c` removed, the rest in order. */
  function RemoveChar(s: string, c: char): (r: string)
    ensures forall x :: x in r <==> x in s && x != c
    ensures c !in s ==> r == s
  {
    if s == [] then []
    else
      var rest := RemoveChar(s[1..], c);
      assert s == [s[0]] + s[1..];
      if s[0] == c then rest else [s[0]] + rest
  }

  /** Removing from a concatenation removes from each piece. */
  lemma {:induction false} RemoveCharAppend(a: string, b: string, c: char)
    ensures RemoveChar(a + b, c) == RemoveChar(a, c) + RemoveChar(b, c)
  {
    if a == [] {
      assert a + b == b;
    } else {
      assert (a + b)[0] == a[0] && (a + b)[1..] == a[1..] + b;
      RemoveCharAppend(a[1..], b, c);
    }
  }

  /** `s.replace(c, '') == ''.join(s.split(c))`: the pieces between the `c`s, run together. */
  lemma {:induction false} RemoveCharJoinsPieces(s: string, c: char)
    ensures RemoveChar(s, c) == Join(SplitOn(s, c), [])
    decreases |s|
  {
    match SplitAtFirst(s, c)
    case None =>
    case Some((a, b)) =>
      RemoveCharJoinsPieces(b, c);
      RemoveCharAppend(a + [c], b, c);
      RemoveCharAppend(a, [c], c);
      assert RemoveChar([c], c) == [];
      var rest := SplitOn(b, c);
      assert SplitOn(s, c) == [a] + rest;
      assert ([a] + rest)[1..] == rest;
  }

  /** `s.split('\n', 1)[0]`: the text before the first line break. */
  function FirstLine(s: string): (r: string)
    ensures r <= s && '\n' !in r
    ensures |r| < |s| ==> s[|r|] == '\n'
  {
    if s == [] || s[0] == '\n' then [] else [s[0]] + FirstLine(s[1..])
  }

  /** `re.split(r'\s+', s, 1)[0]`: the text before the first whitespace character. */
  function FirstWord(s: string): (r: string)
    ensures r <= s && NoSpace(r)
    ensures |r| < |s| ==> IsSpace(s[|r|])
  {
    if s == [] || IsSpace(s[0]) then [] else [s[0]] + FirstWord(s[1..])
  }

  /**
   * `s.split(c, 1)` as a pair, `None` where Python would produce one piece:
   * the text before the first `c` and everything after it.
   */
  function SplitAtFirst(s: string, c: char): (r: Option<(string, string)>)
    ensures r.None? <==> c !in s
    ensures r.Some? ==> c !in r.value.0 && r.value.0 + [c] + r.value.1 == s
  {
    if s == [] then None
    else if s[0] == c then
      assert s == [] + [c] + s[1..];
      Some(([], s[1..]))
    else
      assert s == [s[0]] + s[1..];
      match SplitAtFirst(s[1..], c)
      case None => None
      case Some((a, b)) => Some(([s[0]] + a, b))
  }

  /** `sep.join(parts)` */
  function Join(parts: seq<string>, sep: string): string {
    if |parts| == 0 then []
    else if |parts| == 1 then parts[0]
    else parts[0] + sep + Join(parts[1..], sep)
  }

  /** Joining one more part puts the separator and that part at the end. */
  lemma {:induction false} JoinAppend(parts: seq<string>, x: string, sep: string)
    requires parts != []
    ensures Join(parts + [x], sep) == Join(parts, sep) + sep + x
  {
    if |parts| > 1 {
      assert (parts + [x])[1..] == parts[1..] + [x];
      JoinAppend(parts[1..], x, sep);
    } else {
      assert (parts + [x])[1..] == [x];
    }
  }

  /** Joining more parts extends the join of the first ones. */
  lemma {:induction false} JoinPrefix(a: seq<string>, b: seq<string>, sep: string)
    requires a != []
    ensures Join(a, sep) <= Join(a + b, sep)
  {
    if b == [] {
      assert a + b == a;
    } else if |a| == 1 {
      assert (a + b)[1..] == b;
    } else {
      assert (a + b)[1..] == a[1..] + b;
      JoinPrefix(a[1..], b, sep);
    }
  }

  /** `s.split(c)` for a one-character separator: the pieces between the `c`s. */
  function SplitOn(s: string, c: char): (r: seq<string>)
    ensures |r| >= 1
    ensures forall i :: 0 <= i < |r| ==> c !in r[i]
    ensures Join(r, [c]) == s
    decreases |s|
  {
    match SplitAtFirst(s, c)
    case None => [s]
    case Some((a, b)) =>
      var rest := SplitOn(b, c);
      assert ([a] + rest)[1..] == rest;
      [a] + rest
  }

  /** Splitting a join of pieces free of the separator gives the pieces back. */
  lemma {:induction false} SplitOnJoin(parts: seq<string>, c: char)
    requires |parts| >= 1
    requires forall i :: 0 <= i < |parts| ==> c !in parts[i]
    ensures SplitOn(Join(parts, [c]), c) == parts
  {
    if |parts| == 1 {
      assert SplitAtFirst(parts[0], c).None?;
    } else {
      var s := Join(parts, [c]);
      var tail := Join(parts[1..], [c]);
      assert s == parts[0] + [c] + tail;
      SplitAtFirstOf(parts[0], tail, c);
      SplitOnJoin(parts[1..], c);
      assert parts == [parts[0]] + parts[1..];
    }
  }

  /** The text before the first `c` is a piece that is free of `c`. */
  lemma {:induction false} SplitAtFirstOf(a: string, b: string, c: char)
    requires c !in a
    ensures SplitAtFirst(a + [c] + b, c) == Some((a, b))
  {
    var s := a + [c] + b;
    if a != [] {
      assert s[0] == a[0] && s[1..] == a[1..] + [c] + b;
      SplitAtFirstOf(a[1..], b, c);
      assert a == [a[0]] + a[1..];
    } else {
      assert s[1..] == b;
    }
  }

  /**
   * `strip()` keeps a leading piece that is itself stripped and non-empty,
   * whatever follows it.
   */
  lemma {:induction false} StripKeepsStrippedPrefix(a: string, b: string)
    requires a != [] && IsStripped(a)
    ensures a <= Strip(a + b)
    decreases |b|
  {
    var s := a + b;
    assert s[0] == a[0];
    if b == [] {
      assert s == a;
    } else if IsSpace(s[|s| - 1]) {
      assert s[..|s| - 1] == a + b[..|b| - 1];
      StripKeepsStrippedPrefix(a, b[..|b| - 1]);
    } else {
      assert Strip(s) == s;
    }
  }
}
