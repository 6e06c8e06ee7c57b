/**
 * The JavaScript string primitives the rewrites are built from:
 * `String.prototype.trim`, `split` on a one-character separator,
 * `Array.prototype.join`, and ASCII case folding as used by a regex with
 * the `i` flag.
 */
module Strings {

  /** The characters `trim` removes and the regex class `\s` matches
      (WhiteSpace and LineTerminator of ECMAScript). */
  predicate IsWhitespace(c: char) {
    || c == '\t' || c == '\n' || c == '\U{B}' || c == '\U{C}' || c == '\r' || c == ' '
    || c == '\U{A0}' || c == '\U{1680}' || ('\U{2000}' <= c <= '\U{200A}')
    || c == '\U{2028}' || c == '\U{2029}' || c == '\U{202F}' || c == '\U{205F}'
    || c == '\U{3000}' || c == '\U{FEFF}'
  }

  predicate AllWhitespace(s: string) {
    forall i :: 0 <= i < |s| ==> IsWhitespace(s[i])
  }

  /** No whitespace at either end: what `trim` leaves. */
  predicate IsTrimmed(s: string) {
    s == [] || (!IsWhitespace(s[0]) && !IsWhitespace(s[|s| - 1]))
  }

  /** `trimStart`: drops leading whitespace. */
  function TrimStart(s: string): string
  {
    if s != [] && IsWhitespace(s[0]) then TrimStart(s[1..]) else s
  }

  /** `trimEnd`: drops trailing whitespace. */
  function TrimEnd(s: string): string
  {
    if s != [] && IsWhitespace(s[|s| - 1]) then TrimEnd(s[..|s| - 1]) else s
  }

  /** `trimStart` keeps a suffix that starts with a non-whitespace character and drops
      only whitespace. */
  lemma {:induction false} TrimStartShape(s: string)
    ensures |TrimStart(s)| <= |s| && TrimStart(s) == s[|s| - |TrimStart(s)|..]
    ensures TrimStart(s) == [] || !IsWhitespace(TrimStart(s)[0])
    ensures AllWhitespace(s[..|s| - |TrimStart(s)|])
  {
    if s != [] && IsWhitespace(s[0]) {
      TrimStartShape(s[1..]);
      var n := |s| - |TrimStart(s)|;
      assert s[..n] == [s[0]] + s[1..][..n - 1];
    }
  }

  /** `trimEnd` keeps a prefix that ends with a non-whitespace character and drops only
      whitespace. */
  lemma {:induction false} TrimEndShape(s: string)
    ensures |TrimEnd(s)| <= |s| && TrimEnd(s) == s[..|TrimEnd(s)|]
    ensures TrimEnd(s) == [] || !IsWhitespace(TrimEnd(s)[|TrimEnd(s)| - 1])
    ensures AllWhitespace(s[|TrimEnd(s)|..])
  {
    if s != [] && IsWhitespace(s[|s| - 1]) {
      var init := s[..|s| - 1];
      TrimEndShape(init);
      var n := |TrimEnd(s)|;
      assert s[n..] == init[n..] + [s[|s| - 1]];
    }
  }

  /** `s.trim()`. */
  function Trim(s: string): string
  {
    TrimEnd(TrimStart(s))
  }

  /** What `trim` leaves has no whitespace at either end and is a piece of the string. */
  lemma TrimShape(s: string)
    ensures IsTrimmed(Trim(s))
    ensures OccursAt(s, |s| - |TrimStart(s)|, Trim(s))
  {
    TrimStartShape(s);
    TrimEndShape(TrimStart(s));
  }

  lemma TrimChars(s: string, c: char)
    requires c in Trim(s)
    ensures c in s
  {
    var r := Trim(s);
    var i := |s| - |TrimStart(s)|;
    TrimShape(s);
    var k :| 0 <= k < |r| && r[k] == c;
    assert s[i + k] == c;
  }

  /** Trimming a string that has nothing to trim changes nothing. */
  lemma {:induction false} TrimTrimmed(s: string)
    requires IsTrimmed(s)
    ensures Trim(s) == s
  {
  }

  /** Leading whitespace makes no difference to `trim`. */
  lemma TrimSkipsLeadingWhitespace(c: char, s: string)
    requires IsWhitespace(c)
    ensures Trim([c] + s) == Trim(s)
  {
    assert ([c] + s)[1..] == s;
  }

  /** `trim` is empty exactly for all-whitespace strings (the falsy case of the source's filters). */
  lemma TrimEmpty(s: string)
    ensures Trim(s) == [] <==> AllWhitespace(s)
  {
    var t := TrimStart(s);
    TrimStartShape(s);
    TrimEndShape(t);
    if Trim(s) == [] {
      assert t == t[0..];
      assert AllWhitespace(t);
      assert s == s[..|s| - |t|] + t;
    } else {
      TrimShape(s);
      var i := |s| - |t|;
      assert s[i] == Trim(s)[0];
    }
  }

  /** `s.split(c)` for a one-character separator: never empty, and "" splits to [""]. */
  function Split(s: string, c: char): (r: seq<string>)
    ensures |r| >= 1
  {
    if s == [] then [[]]
    else
      var rest := Split(s[1..], c);
      if s[0] == c then [[]] + rest else [[s[0]] + rest[0]] + rest[1..]
  }

  /** No piece of a split holds the separator. */
  lemma {:induction false} SplitPieces(s: string, c: char)
    ensures forall i :: 0 <= i < |Split(s, c)| ==> c !in Split(s, c)[i]
  {
    if s != [] {
      SplitPieces(s[1..], c);
    }
  }

  /** `parts.join(sep)`. */
  function Join(parts: seq<string>, sep: string): string
  {
    if |parts| == 0 then []
    else if |parts| == 1 then parts[0]
    else parts[0] + sep + Join(parts[1..], sep)
  }

  /** Joining the pieces of a split with the separator gives the string back. */
  lemma {:induction false} JoinSplit(s: string, c: char)
    ensures Join(Split(s, c), [c]) == s
  {
    if s != [] {
      var rest := Split(s[1..], c);
      JoinSplit(s[1..], c);
      if s[0] == c {
        assert Split(s, c) == [[]] + rest;
      } else {
        var r := Split(s, c);
        if |rest| == 1 {
          assert r == [[s[0]] + rest[0]];
        } else {
          assert r[1..] == rest[1..];
          assert Join(r, [c]) == [s[0]] + rest[0] + [c] + Join(rest[1..], [c]);
        }
      }
    }
  }

  /** Every character of a split piece is a character of the split string. */
  lemma {:induction false} SplitChars(s: string, c: char, i: nat, x: char)
    requires i < |Split(s, c)| && x in Split(s, c)[i]
    ensures x in s
  {
    if s != [] {
      var rest := Split(s[1..], c);
      if s[0] == c {
        SplitChars(s[1..], c, i - 1, x);
      } else if i == 0 {
        if x != s[0] {
          assert x in rest[0];
          SplitChars(s[1..], c, 0, x);
        }
      } else {
        SplitChars(s[1..], c, i, x);
      }
    }
  }

  /** A string without the separator splits into itself alone. */
  lemma {:induction false} SplitNoSeparator(s: string, c: char)
    requires c !in s
    ensures Split(s, c) == [s]
  {
    if s != [] {
      SplitNoSeparator(s[1..], c);
      assert [s[0]] + s[1..] == s;
    }
  }

  /** The first separator ends the first piece. */
  lemma {:induction false} SplitAtSeparator(a: string, c: char, b: string)
    requires c !in a
    ensures Split(a + [c] + b, c) == [a] + Split(b, c)
  {
    if a == [] {
      assert (a + [c] + b)[1..] == b;
    } else {
      assert (a + [c] + b)[1..] == a[1..] + [c] + b;
      SplitAtSeparator(a[1..], c, b);
      assert [a[0]] + a[1..] == a;
    }
  }

  /** Splitting inverts joining when no piece holds the separator. */
  lemma {:induction false} SplitJoin(parts: seq<string>, c: char)
    requires |parts| >= 1
    requires forall i :: 0 <= i < |parts| ==> c !in parts[i]
    ensures Split(Join(parts, [c]), c) == parts
  {
    if |parts| == 1 {
      SplitNoSeparator(parts[0], c);
    } else {
      SplitJoin(parts[1..], c);
      SplitAtSeparator(parts[0], c, Join(parts[1..], [c]));
      assert [parts[0]] + parts[1..] == parts;
    }
  }

  /** The character an ASCII upper-case letter folds to; every other character is itself. */
  function LowerAscii(c: char): char {
    if 'A' <= c <= 'Z' then (c as int + 32) as char else c
  }

  /** Case-insensitive equality with a lower-case ASCII word, as a regex with the `i` flag compares. */
  predicate EqualsIgnoreCase(s: string, lower: string) {
    |s| == |lower| && forall i :: 0 <= i < |s| ==> LowerAscii(s[i]) == lower[i]
  }

  function ToLowerAscii(s: string): (r: string)
    ensures |r| == |s| && forall i :: 0 <= i < |s| ==> r[i] == LowerAscii(s[i])
  {
    if s == [] then [] else [LowerAscii(s[0])] + ToLowerAscii(s[1..])
  }

  predicate StartsWith(s: string, prefix: string) {
    |prefix| <= |s| && s[..|prefix|] == prefix
  }

  lemma StartsWithAppend(u: string, t: string)
    ensures StartsWith(u + t, u)
  {
    assert (u + t)[..|u|] == u;
  }

  /** `t` occurs in `s` starting at index `i`. */
  predicate OccursAt(s: string, i: int, t: string) {
    0 <= i && i + |t| <= |s| && s[i..i + |t|] == t
  }

  /** `s` holds `t` somewhere (`s.includes(t)`). */
  ghost predicate Contains(s: string, t: string) {
    exists i :: OccursAt(s, i, t)
  }

  lemma ContainsMiddle(a: string, t: string, b: string)
    ensures Contains(a + t + b, t)
  {
    assert OccursAt(a + t + b, |a|, t);
  }

  lemma ContainsInfix(s: string, a: string, t: string, b: string)
    requires Contains(t, s)
    ensures Contains(a + t + b, s)
  {
    var i :| OccursAt(t, i, s);
    assert (a + t + b)[|a| + i..|a| + i + |s|] == t[i..i + |s|];
    assert OccursAt(a + t + b, |a| + i, s);
  }

  lemma ContainsTrans(u: string, t: string, s: string)
    requires Contains(u, t) && Contains(t, s)
    ensures Contains(u, s)
  {
    var i :| OccursAt(u, i, t);
    var j :| OccursAt(t, j, s);
    SliceOfSlice(u, i, i + |t|, j, j + |s|);
    assert OccursAt(u, i + j, s);
  }

  /** Every piece occurs in a join of the pieces. */
  lemma {:induction false} JoinContains(parts: seq<string>, sep: string, k: nat)
    requires k < |parts|
    ensures Contains(Join(parts, sep), parts[k])
  {
    if |parts| == 1 {
      assert OccursAt(parts[0], 0, parts[0]);
    } else {
      var rest := Join(parts[1..], sep);
      assert Join(parts, sep) == parts[0] + sep + rest;
      if k == 0 {
        SliceOfAppend(parts[0], sep + rest, 0, |parts[0]|);
        assert parts[0] + sep + rest == parts[0] + (sep + rest);
        assert OccursAt(Join(parts, sep), 0, parts[0]);
      } else {
        assert parts[1..][k - 1] == parts[k];
        JoinContains(parts[1..], sep, k - 1);
        ContainsInfix(parts[k], parts[0] + sep, rest, []);
        AppendEmpty(parts[0] + sep + rest);
      }
    }
  }

  // ----- Sequence algebra -----

  lemma ConsAppend(w: string, a: string)
    requires w != []
    ensures [w[0]] + (w[1..] + a) == w + a
  {
    assert w == [w[0]] + w[1..];
  }

  lemma TailOfAppend(w: string, t: string)
    requires w != []
    ensures (w + t)[1..] == w[1..] + t
  {
  }

  lemma DropOfAppend(u: string, t: string, k: nat)
    requires k <= |u|
    ensures (u + t)[k..] == u[k..] + t
  {
  }

  lemma DropAppend(u: string, t: string)
    ensures (u + t)[|u|..] == t
  {
  }

  lemma AppendEmpty(u: string)
    ensures u + [] == u && [] + u == u
  {
  }

  lemma TakeDrop(s: string, n: nat)
    requires n <= |s|
    ensures s[..n] + s[n..] == s
  {
  }

  lemma SliceOfSlice(u: string, i: nat, n: nat, j: nat, m: nat)
    requires i <= n <= |u| && j <= m <= n - i
    ensures u[i..n][j..m] == u[i + j..i + m]
  {
    forall k | 0 <= k < m - j ensures u[i..n][j..m][k] == u[i + j..i + m][k] {
      assert u[i..n][j..m][k] == u[i + j + k];
    }
  }

  lemma SliceOfAppend(u: string, t: string, i: nat, j: nat)
    requires i <= j <= |u|
    ensures (u + t)[i..j] == u[i..j]
  {
  }
}
