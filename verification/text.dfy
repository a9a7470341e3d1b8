/** The Python string and sequence operations the modelled code relies on:
    `str.split` on one separator character, `str.join`, the whitespace
    trimming `int()` and `float()` apply to their argument, and slicing with
    negative indices. */
module Text {

  /** `sep.join(fields)`. */
  function Join(fields: seq<string>, sep: char): string
    decreases |fields|
  {
    if |fields| == 0 then ""
    else if |fields| == 1 then fields[0]
    else fields[0] + [sep] + Join(fields[1..], sep)
  }

  /** `s.split(sep)`: the maximal runs between separators, in order. There is
      always at least one field, none contains the separator, and joining the
      fields back with the separator gives `s` again. */
  function Split(s: string, sep: char): (fields: seq<string>)
    ensures |fields| >= 1
    ensures forall k :: 0 <= k < |fields| ==> sep !in fields[k]
    ensures Join(fields, sep) == s
    decreases |s|
  {
    if |s| == 0 then [""]
    else
      var rest := Split(s[1..], sep);
      if s[0] == sep then
        assert s == [sep] + s[1..];
        [""] + rest
      else
        var fields := [[s[0]] + rest[0]] + rest[1..];
        assert |rest| > 1 ==> Join(rest, sep) == rest[0] + [sep] + Join(rest[1..], sep);
        assert fields[1..] == rest[1..];
        assert s == [s[0]] + s[1..];
        fields
  }

  /** Splitting a text with one extra separator glued in splits each side
      independently. */
  lemma {:induction false} SplitConcat(a: string, b: string, sep: char)
    ensures Split(a + [sep] + b, sep) == Split(a, sep) + Split(b, sep)
    decreases |a|
  {
    if |a| == 0 {
      assert a + [sep] + b == [sep] + b;
      assert ([sep] + b)[1..] == b;
    } else {
      assert (a + [sep] + b)[1..] == a[1..] + [sep] + b;
      SplitConcat(a[1..], b, sep);
    }
  }

  /** A text without the separator is a single field. */
  lemma {:induction false} SplitNoSeparator(a: string, sep: char)
    requires sep !in a
    ensures Split(a, sep) == [a]
    decreases |a|
  {
    if |a| > 0 {
      SplitNoSeparator(a[1..], sep);
      assert a == [a[0]] + a[1..];
    }
  }

  /** The converse of `Split`'s round trip: splitting the join of separator-free
      fields gives back exactly those fields. */
  lemma {:induction false} SplitJoin(fields: seq<string>, sep: char)
    requires |fields| >= 1
    requires forall k :: 0 <= k < |fields| ==> sep !in fields[k]
    ensures Split(Join(fields, sep), sep) == fields
    decreases |fields|
  {
    SplitNoSeparator(fields[0], sep);
    if |fields| > 1 {
      SplitJoin(fields[1..], sep);
      SplitConcat(fields[0], Join(fields[1..], sep), sep);
      assert fields == [fields[0]] + fields[1..];
    }
  }

  /** The whitespace `int()` and `float()` skip around a number, as code
      points. CPython first maps every non-ASCII character `str.isspace`
      accepts to a space, then skips the ASCII space, tab, line feed,
      vertical tab, form feed and carriage return. The ASCII separators
      U+001C..U+001F, whitespace to `str.isspace`, are therefore not skipped. */
  predicate IsSpace(c: char) {
    var k := c as int;
    || k == 0x20 || 0x09 <= k <= 0x0D
    || k == 0x85 || k == 0xA0 || k == 0x1680 || 0x2000 <= k <= 0x200A
    || k == 0x2028 || k == 0x2029 || k == 0x202F || k == 0x205F || k == 0x3000
  }

  predicate AllSpace(s: string) {
    forall k :: 0 <= k < |s| ==> IsSpace(s[k])
  }

  /** Dropping the leading whitespace. */
  function TrimStart(s: string): string
    decreases |s|
  {
    if |s| > 0 && IsSpace(s[0]) then TrimStart(s[1..]) else s
  }

  /** Dropping the trailing whitespace. */
  function TrimEnd(s: string): string
    decreases |s|
  {
    if |s| > 0 && IsSpace(s[|s| - 1]) then TrimEnd(s[..|s| - 1]) else s
  }

  /** `TrimStart` leaves the suffix that follows the leading whitespace: what
      it drops is all whitespace, and what it keeps does not start with any. */
  lemma {:induction false} TrimStartSpec(s: string)
    ensures var r := TrimStart(s);
      && |r| <= |s| && r == s[|s| - |r|..]
      && AllSpace(s[..|s| - |r|])
      && (|r| == 0 || !IsSpace(r[0]))
    decreases |s|
  {
    if |s| > 0 && IsSpace(s[0]) {
      TrimStartSpec(s[1..]);
    }
  }

  /** `TrimEnd` leaves the prefix that precedes the trailing whitespace. */
  lemma {:induction false} TrimEndSpec(s: string)
    ensures var r := TrimEnd(s);
      && |r| <= |s| && r == s[..|r|]
      && AllSpace(s[|r|..])
      && (|r| == 0 || !IsSpace(r[|r| - 1]))
    decreases |s|
  {
    if |s| > 0 && IsSpace(s[|s| - 1]) {
      var init := s[..|s| - 1];
      TrimEndSpec(init);
      var r := TrimEnd(init);
      assert r == s[..|r|];
      assert s[|r|..] == init[|r|..] + [s[|s| - 1]];
    }
  }

  /** Dropping the whitespace at both ends, as `int()` and `float()` do. */
  function Strip(s: string): string {
    TrimEnd(TrimStart(s))
  }

  /** Leading whitespace in front of a text that starts with a non-space
      character is exactly what `TrimStart` drops. */
  lemma TrimStartPadded(a: string, y: string)
    requires AllSpace(a)
    requires |y| > 0 && !IsSpace(y[0])
    ensures TrimStart(a + y) == y
  {
    var s := a + y;
    TrimStartSpec(s);
    var r := TrimStart(s);
    var m := |s| - |r|;
    assert forall k :: 0 <= k < m ==> IsSpace(s[k]) by {
      assert forall k :: 0 <= k < m ==> s[..m][k] == s[k];
    }
    assert forall k :: 0 <= k < |a| ==> s[k] == a[k];
    assert s[|a|] == y[0];
    assert m == |a|;
  }

  /** Trailing whitespace after a text that ends with a non-space character
      is exactly what `TrimEnd` drops. */
  lemma TrimEndPadded(y: string, b: string)
    requires AllSpace(b)
    requires |y| > 0 && !IsSpace(y[|y| - 1])
    ensures TrimEnd(y + b) == y
  {
    var s := y + b;
    TrimEndSpec(s);
    var q := TrimEnd(s);
    assert forall k :: |q| <= k < |s| ==> IsSpace(s[k]) by {
      assert forall k :: |q| <= k < |s| ==> s[|q|..][k - |q|] == s[k];
    }
    assert forall k :: |y| <= k < |s| ==> s[k] == b[k - |y|];
    assert s[|y| - 1] == y[|y| - 1];
    assert |q| == |y|;
  }

  /** Stripping removes exactly the whitespace padding around a text that
      neither starts nor ends with whitespace. */
  lemma StripPadded(a: string, x: string, b: string)
    requires AllSpace(a) && AllSpace(b)
    requires |x| > 0 && !IsSpace(x[0]) && !IsSpace(x[|x| - 1])
    ensures Strip(a + x + b) == x
  {
    assert a + x + b == a + (x + b);
    TrimStartPadded(a, x + b);
    TrimEndPadded(x, b);
  }

  /** The converse of `StripPadded`: every text is its stripped form with
      whitespace on either side. */
  lemma StripDecompose(s: string) returns (a: string, b: string)
    ensures AllSpace(a) && AllSpace(b)
    ensures s == a + Strip(s) + b
  {
    TrimStartSpec(s);
    var r := TrimStart(s);
    TrimEndSpec(r);
    var q := TrimEnd(r);
    a := s[..|s| - |r|];
    b := r[|q|..];
    assert r == q + b;
    assert s == a + r;
  }

  /** Normalises a Python slice bound against a sequence of length `n`:
      a negative bound counts from the end, and the result is clamped to
      `0..n`. */
  function SliceBound(k: int, n: nat): (b: nat)
    ensures b <= n
  {
    if k < 0 then (if k + n < 0 then 0 else k + n)
    else if k > n then n
    else k
  }

  /** `s[start:stop]` with Python's rules; never fails. */
  function Slice<T>(s: seq<T>, start: int, stop: int): seq<T> {
    var lo := SliceBound(start, |s|);
    var hi := SliceBound(stop, |s|);
    if lo < hi then s[lo..hi] else []
  }
}
