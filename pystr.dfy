/** The handful of Python `str` operations the scripts rely on, written out
    over `seq<char>`: prefix and suffix tests, negative slicing, `strip`,
    `lower`, `rfind`, `join` and `split`. */
module PyStr {

  /** `s.startswith(p)` */
  predicate StartsWith(s: string, p: string) {
    |p| <= |s| && s[..|p|] == p
  }

  /** `s.endswith(p)` */
  predicate EndsWith(s: string, p: string) {
    |p| <= |s| && s[|s| - |p|..] == p
  }

  /** `s[:-n]` for a positive `n`: everything but the last `n` characters,
      and the empty string when `s` is shorter than that. */
  function DropLast(s: string, n: nat): (r: string)
    requires 0 < n
    ensures |r| == if |s| >= n then |s| - n else 0
    ensures r == s[..|r|]
  {
    s[..if |s| >= n then |s| - n else 0]
  }

  /** `s[i:]` for a non-negative `i`, which is empty past the end. */
  function From(s: string, i: nat): (r: string)
    ensures i <= |s| ==> r == s[i..]
    ensures i > |s| ==> r == ""
  {
    if i <= |s| then s[i..] else ""
  }

  /** The characters `str.strip()` removes on ASCII input: space, `\t`,
      `\n`, `\v`, `\f`, `\r` and the separators `\x1c` to `\x1f`. */
  predicate IsSpace(c: char) {
    c == ' ' || ('\t' <= c <= '\r') || ('\U{1C}' <= c <= '\U{1F}')
  }

  function LStrip(s: string): string {
    if |s| > 0 && IsSpace(s[0]) then LStrip(s[1..]) else s
  }

  function RStrip(s: string): string {
    if |s| > 0 && IsSpace(s[|s| - 1]) then RStrip(s[..|s| - 1]) else s
  }

  /** `s.strip()` */
  function Strip(s: string): string {
    RStrip(LStrip(s))
  }

  /** `lstrip` removes exactly the leading white space. */
  lemma {:induction false} LStripMeaning(s: string)
    ensures |LStrip(s)| <= |s| && LStrip(s) == s[|s| - |LStrip(s)|..]
    ensures LStrip(s) == "" || !IsSpace(LStrip(s)[0])
    ensures forall i :: 0 <= i < |s| - |LStrip(s)| ==> IsSpace(s[i])
    decreases |s|
  {
    if |s| > 0 && IsSpace(s[0]) {
      LStripMeaning(s[1..]);
    }
  }

  /** `rstrip` removes exactly the trailing white space. */
  lemma {:induction false} RStripMeaning(s: string)
    ensures |RStrip(s)| <= |s| && RStrip(s) == s[..|RStrip(s)|]
    ensures RStrip(s) == "" || !IsSpace(RStrip(s)[|RStrip(s)| - 1])
    ensures forall i :: |RStrip(s)| <= i < |s| ==> IsSpace(s[i])
    decreases |s|
  {
    if |s| > 0 && IsSpace(s[|s| - 1]) {
      RStripMeaning(s[..|s| - 1]);
    }
  }

  /** `strip` leaves the middle slice of `s` between its leading and its
      trailing white space, and that slice neither starts nor ends with any. */
  lemma StripMeaning(s: string)
    ensures exists i, j :: (0 <= i <= j <= |s| && Strip(s) == s[i..j] &&
      (forall k :: 0 <= k < i ==> IsSpace(s[k])) &&
      (forall k :: j <= k < |s| ==> IsSpace(s[k])))
    ensures Strip(s) == "" || (!IsSpace(Strip(s)[0]) && !IsSpace(Strip(s)[|Strip(s)| - 1]))
  {
    var l := LStrip(s);
    LStripMeaning(s);
    RStripMeaning(l);
    var i := |s| - |l|;
    var j := i + |Strip(s)|;
    assert Strip(s) == s[i..j];
    if Strip(s) != "" {
      assert Strip(s)[0] == l[0];
    }
  }

  function ToLower(c: char): char {
    if 'A' <= c <= 'Z' then (c as int + 32) as char else c
  }

  /** `s.lower()`, restricted to the ASCII letters. */
  function Lower(s: string): (r: string)
    ensures |r| == |s|
    ensures forall i :: 0 <= i < |s| ==> r[i] == ToLower(s[i])
  {
    seq(|s|, i requires 0 <= i < |s| => ToLower(s[i]))
  }

  /** `s.rfind(c)`: the last index holding `c`, or -1. */
  function RFind(s: string, c: char): (r: int)
    ensures -1 <= r < |s|
    ensures r >= 0 ==> s[r] == c
    ensures forall k :: r < k < |s| ==> s[k] != c
  {
    if |s| == 0 then -1
    else if s[|s| - 1] == c then |s| - 1
    else RFind(s[..|s| - 1], c)
  }

  /** `sep.join(parts)` */
  function Join(parts: seq<string>, sep: string): string
    decreases |parts|
  {
    if |parts| == 0 then ""
    else if |parts| == 1 then parts[0]
    else parts[0] + sep + Join(parts[1..], sep)
  }

  /** The first index holding `c`. */
  function IndexOf(s: string, c: char): (i: nat)
    requires c in s
    ensures i < |s| && s[i] == c && c !in s[..i]
  {
    if s[0] == c then 0 else 1 + IndexOf(s[1..], c)
  }

  /** `s.split(c)` for a one-character separator. */
  function Split(s: string, c: char): (r: seq<string>)
    ensures |r| > 0
    decreases |s|
  {
    if c !in s then [s]
    else
      var i := IndexOf(s, c);
      [s[..i]] + Split(s[i + 1..], c)
  }

  /** Splitting a joined list gives it back, provided no part holds the
      separator. The empty list is excluded: it joins to "" like `[""]`. */
  lemma {:induction false} SplitJoin(parts: seq<string>, c: char)
    requires |parts| > 0
    requires forall k :: 0 <= k < |parts| ==> c !in parts[k]
    ensures Split(Join(parts, [c]), c) == parts
    decreases |parts|
  {
    if |parts| > 1 {
      var p, rest := parts[0], Join(parts[1..], [c]);
      var s := p + [c] + rest;
      assert Join(parts, [c]) == s;
      assert s[|p|] == c;
      var i := IndexOf(s, c);
      assert i == |p| by {
        assert forall k :: 0 <= k < |p| ==> s[k] == p[k];
      }
      assert s[..i] == p;
      assert s[i + 1..] == rest;
      SplitJoin(parts[1..], c);
    }
  }

  /** A piece free of the separator, then the separator, splits into that
      piece followed by the split of the rest. */
  lemma SplitAfter(p: string, c: char, rest: string)
    requires c !in p
    ensures Split(p + [c] + rest, c) == [p] + Split(rest, c)
  {
    var s := p + [c] + rest;
    assert s[|p|] == c;
    var i := IndexOf(s, c);
    assert i == |p| by {
      assert forall k :: 0 <= k < |p| ==> s[k] == p[k];
    }
    assert s[..i] == p;
    assert s[i + 1..] == rest;
  }

  /** Appending text free of the separator extends the last piece only. */
  lemma {:induction false} SplitAppendPlain(s: string, c: char, x: string)
    requires c !in x
    ensures Split(s + x, c) == Split(s, c)[..|Split(s, c)| - 1] + [Split(s, c)[|Split(s, c)| - 1] + x]
    decreases |s|
  {
    if c !in s {
      assert c !in s + x;
    } else {
      var i := IndexOf(s, c);
      IndexOfPrefix(s, x, c);
      var r := Split(s[i + 1..], c);
      assert (s + x)[..i] == s[..i];
      assert (s + x)[i + 1..] == s[i + 1..] + x;
      SplitAppendPlain(s[i + 1..], c, x);
      assert Split(s + x, c) == [s[..i]] + Split(s[i + 1..] + x, c);
      assert Split(s, c) == [s[..i]] + r;
      ConsInitLast(s[..i], r, r[|r| - 1] + x);
    }
  }

  /** Putting a piece in front commutes with replacing the last piece. */
  lemma ConsInitLast(a: string, r: seq<string>, y: string)
    requires |r| > 0
    ensures [a] + (r[..|r| - 1] + [y]) == ([a] + r)[..|r|] + [y]
    ensures ([a] + r)[|r|] == r[|r| - 1]
  {
    assert ([a] + r)[..|r|] == [a] + r[..|r| - 1];
  }

  /** The first separator of `s` is the first one of any extension of `s`. */
  lemma IndexOfPrefix(s: string, x: string, c: char)
    requires c in s
    ensures c in s + x && IndexOf(s + x, c) == IndexOf(s, c)
  {
    var i := IndexOf(s, c);
    var sx := s + x;
    assert sx[i] == c;
    assert sx[..i] == s[..i];
  }
}
