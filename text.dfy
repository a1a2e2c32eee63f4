/** The string operations of the JavaScript runtime that the handlers and the
    schema setters rely on: `trim`, `toLowerCase`, `startsWith` and `split`
    with a one-character separator. */
module Text {

  /** The code points `String.prototype.trim` removes: the ECMAScript
      WhiteSpace (tab, vertical tab, form feed, space, no-break space, the
      byte order mark and the other space separators) and LineTerminator
      (line feed, carriage return, line and paragraph separators) sets. */
  predicate IsSpace(c: char) {
    || c == ' '
    || ('\t' <= c <= '\r')
    || c == '\U{A0}'
    || c == '\U{1680}'
    || ('\U{2000}' <= c <= '\U{200A}')
    || c == '\U{2028}'
    || c == '\U{2029}'
    || c == '\U{202F}'
    || c == '\U{205F}'
    || c == '\U{3000}'
    || c == '\U{FEFF}'
  }

  /** A string that `trim` leaves alone: empty, or neither end is a space. */
  predicate Trimmed(s: string) {
    s == [] || (!IsSpace(s[0]) && !IsSpace(s[|s| - 1]))
  }

  predicate AllSpace(s: string) {
    forall i :: 0 <= i < |s| ==> IsSpace(s[i])
  }

  /** Drops the leading white space. */
  function TrimStart(s: string): (r: string)
    ensures |r| <= |s| && r == s[|s| - |r|..]
    ensures AllSpace(s[..|s| - |r|])
    ensures r == [] || !IsSpace(r[0])
  {
    if s != [] && IsSpace(s[0]) then
      var r := TrimStart(s[1..]);
      assert s[..|s| - |r|] == [s[0]] + s[1..][..|s| - 1 - |r|];
      r
    else s
  }

  /** Drops the trailing white space. */
  function TrimEnd(s: string): (r: string)
    ensures |r| <= |s| && r == s[..|r|]
    ensures AllSpace(s[|r|..])
    ensures r == [] || !IsSpace(r[|r| - 1])
  {
    if s != [] && IsSpace(s[|s| - 1]) then
      var r := TrimEnd(s[..|s| - 1]);
      assert s[|r|..] == s[..|s| - 1][|r|..] + [s[|s| - 1]];
      r
    else s
  }

  /** `String.prototype.trim`. */
  function Trim(s: string): string {
    TrimEnd(TrimStart(s))
  }

  /** Trim cuts `s` into white space, a trimmed middle and white space, and
      the middle is what it returns. */
  lemma TrimSplitsOffSpace(s: string)
    ensures Trimmed(Trim(s))
    ensures exists i, j :: 0 <= i <= j <= |s| && AllSpace(s[..i]) && Trim(s) == s[i..j] && AllSpace(s[j..])
  {
    var t := TrimStart(s);
    var r := TrimEnd(t);
    var i := |s| - |t|;
    var j := i + |r|;
    assert Trimmed(r) by {
      if r != [] {
        assert r[0] == t[0];
      }
    }
    assert 0 <= i <= j <= |s| && AllSpace(s[..i]) && r == s[i..j] && AllSpace(s[j..]) by {
      assert s[i..] == t;
      assert s[i..j] == t[..|r|];
      assert s[j..] == t[|r|..];
    }
  }

  /** The decomposition is unique: whatever white space surrounds a trimmed
      middle, `Trim` returns exactly that middle. */
  lemma {:induction false} TrimOfPadded(a: string, m: string, b: string)
    requires AllSpace(a) && AllSpace(b) && Trimmed(m)
    ensures Trim(a + m + b) == m
  {
    if m == [] {
      assert a + m + b == a + b;
      assert AllSpace(a + b);
      TrimStartAllSpace(a + b);
    } else {
      assert a + m + b == a + (m + b);
      TrimStartOfPadded(a, m + b);
      TrimEndOfPadded(m, b);
    }
  }

  lemma {:induction false} TrimStartAllSpace(s: string)
    requires AllSpace(s)
    ensures TrimStart(s) == []
  {
  }

  lemma {:induction false} TrimStartOfPadded(a: string, rest: string)
    requires AllSpace(a)
    requires rest == [] || !IsSpace(rest[0])
    ensures TrimStart(a + rest) == rest
    decreases |a|
  {
    if a != [] {
      assert (a + rest)[1..] == a[1..] + rest;
      TrimStartOfPadded(a[1..], rest);
    } else {
      assert a + rest == rest;
    }
  }

  lemma {:induction false} TrimEndOfPadded(m: string, b: string)
    requires AllSpace(b)
    requires m != [] && !IsSpace(m[|m| - 1])
    ensures TrimEnd(m + b) == m
    decreases |b|
  {
    if b != [] {
      assert (m + b)[..|m + b| - 1] == m + b[..|b| - 1];
      TrimEndOfPadded(m, b[..|b| - 1]);
    } else {
      assert m + b == m;
    }
  }

  /** `trim` is idempotent: a trimmed string is its own trim. */
  lemma TrimIdempotent(s: string)
    requires Trimmed(s)
    ensures Trim(s) == s
  {
    TrimOfPadded([], s, []);
    assert [] + s + [] == s;
  }

  /** `toLowerCase` on one code point; only the ASCII capitals are mapped. */
  function LowerChar(c: char): char {
    if 'A' <= c <= 'Z' then (c as int + 32) as char else c
  }

  /** `String.prototype.toLowerCase`, restricted to ASCII letters. */
  function Lower(s: string): (r: string)
    ensures |r| == |s|
    ensures forall i :: 0 <= i < |s| ==> r[i] == LowerChar(s[i])
  {
    seq(|s|, i requires 0 <= i < |s| => LowerChar(s[i]))
  }

  /** Lower-casing keeps white space where it was, so it keeps a trimmed
      string trimmed, and doing it twice is doing it once. */
  lemma LowerKeepsTrimmed(s: string)
    requires Trimmed(s)
    ensures Trimmed(Lower(s))
    ensures Lower(Lower(s)) == Lower(s)
  {
  }

  /** `s.startsWith(prefix)`. */
  predicate StartsWith(s: string, prefix: string) {
    |prefix| <= |s| && s[..|prefix|] == prefix
  }

  /** `s.split(sep)` for a one-character separator: the pieces between
      separators, empty pieces included, and always at least one piece. */
  function Split(s: string, sep: char): (parts: seq<string>)
    ensures |parts| >= 1
    ensures forall i :: 0 <= i < |parts| ==> sep !in parts[i]
    decreases |s|
  {
    if s == [] then [[]]
    else
      var rest := Split(s[1..], sep);
      if s[0] == sep then [[]] + rest else [[s[0]] + rest[0]] + rest[1..]
  }

  /** `parts.join(sep)`. */
  function Join(parts: seq<string>, sep: char): string
    requires |parts| >= 1
    decreases |parts|
  {
    if |parts| == 1 then parts[0] else parts[0] + [sep] + Join(parts[1..], sep)
  }

  /** Joining the pieces back with the separator gives the string split. */
  lemma {:induction false} JoinSplit(s: string, sep: char)
    ensures Join(Split(s, sep), sep) == s
    decreases |s|
  {
    if s != [] {
      JoinSplit(s[1..], sep);
      var rest := Split(s[1..], sep);
      if s[0] != sep {
        if |rest| == 1 {
          assert s == [s[0]] + s[1..];
        } else {
          assert Join([[s[0]] + rest[0]] + rest[1..], sep)
              == [s[0]] + rest[0] + [sep] + Join(rest[1..], sep);
          assert s == [s[0]] + s[1..];
        }
      } else {
        assert Join([[]] + rest, sep) == [] + [sep] + Join(rest, sep);
        assert s == [s[0]] + s[1..];
      }
    }
  }

  /** A prefix without separators extends the first piece. */
  lemma {:induction false} SplitPrefix(a: string, b: string, sep: char)
    requires sep !in a
    ensures Split(a + b, sep) == [a + Split(b, sep)[0]] + Split(b, sep)[1..]
    decreases |a|
  {
    if a == [] {
      var parts := Split(b, sep);
      assert a + b == b;
      assert a + parts[0] == parts[0];
      assert parts == [parts[0]] + parts[1..];
    } else {
      assert (a + b)[1..] == a[1..] + b;
      assert (a + b)[0] == a[0];
      SplitPrefix(a[1..], b, sep);
      assert [a[0]] + (a[1..] + Split(b, sep)[0]) == a + Split(b, sep)[0];
    }
  }

  /** A string without the separator splits into itself alone. */
  lemma SplitNoSeparator(a: string, sep: char)
    requires sep !in a
    ensures Split(a, sep) == [a]
  {
    SplitPrefix(a, [], sep);
    assert a + [] == a;
  }

  /** Splitting at a separator that follows a separator-free prefix. */
  lemma SplitAtSeparator(a: string, b: string, sep: char)
    requires sep !in a
    ensures Split(a + [sep] + b, sep) == [a] + Split(b, sep)
  {
    assert a + [sep] + b == a + ([sep] + b);
    SplitPrefix(a, [sep] + b, sep);
    assert ([sep] + b)[1..] == b;
    assert a + [] == a;
  }

  /** A string is what comes before position `i`, the character there, and
      what comes after it. */
  lemma CutAt(s: string, i: int)
    requires 0 <= i < |s|
    ensures s == s[..i] + [s[i]] + s[i + 1..]
  {
    assert s == s[..i] + s[i..];
    assert s[i..] == [s[i]] + s[i + 1..];
  }

  /** Cutting at the first separator: the first piece, the separator, and
      the other pieces joined back, which split into exactly those pieces. */
  lemma SplitFirst(s: string, sep: char)
    requires |Split(s, sep)| >= 2
    ensures var parts := Split(s, sep);
      && s == parts[0] + [sep] + Join(parts[1..], sep)
      && Split(Join(parts[1..], sep), sep) == parts[1..]
  {
    var parts := Split(s, sep);
    JoinSplit(s, sep);
    SplitJoin(parts[1..], sep);
  }

  /** Splitting a join of separator-free pieces gives the pieces back. */
  lemma {:induction false} SplitJoin(parts: seq<string>, sep: char)
    requires |parts| >= 1
    requires forall i :: 0 <= i < |parts| ==> sep !in parts[i]
    ensures Split(Join(parts, sep), sep) == parts
    decreases |parts|
  {
    if |parts| == 1 {
      SplitNoSeparator(parts[0], sep);
    } else {
      SplitJoin(parts[1..], sep);
      SplitAtSeparator(parts[0], Join(parts[1..], sep), sep);
      assert [parts[0]] + parts[1..] == parts;
    }
  }
}
