/** ASCII models of the Python `str` operations the application relies on:
    `in`, `startswith`, `find`, `split`, `join`, `strip`, `upper`, `lower`
    and `replace`. Strings are sequences of characters; case mapping and
    whitespace are restricted to the ASCII range. */
module Text {

  // ---------------------------------------------------------------------
  // Characters
  // ---------------------------------------------------------------------

  /** Python's `str.isspace()` on ASCII: tab, line feed, vertical tab,
      form feed, carriage return (9..13), the four separators 28..31 and space. */
  predicate IsSpace(c: char)
  {
    (9 <= c as int <= 13) || (28 <= c as int <= 32)
  }

  predicate IsAsciiUpper(c: char) { 'A' <= c <= 'Z' }

  predicate IsAsciiLower(c: char) { 'a' <= c <= 'z' }

  function UpperChar(c: char): char
  {
    if IsAsciiLower(c) then (c as int - 32) as char else c
  }

  function LowerChar(c: char): char
  {
    if IsAsciiUpper(c) then (c as int + 32) as char else c
  }

  /** `s.upper()` */
  function Upper(s: string): string
  {
    seq(|s|, i requires 0 <= i < |s| => UpperChar(s[i]))
  }

  /** `s.lower()` */
  function Lower(s: string): string
  {
    seq(|s|, i requires 0 <= i < |s| => LowerChar(s[i]))
  }

  /** After `lower()` no ASCII capital letter is left, every other character is
      kept, and lowering again changes nothing. */
  lemma LowerMeaning(s: string)
    ensures |Lower(s)| == |s|
    ensures forall i :: 0 <= i < |s| ==> !IsAsciiUpper(Lower(s)[i])
    ensures forall i :: 0 <= i < |s| && !IsAsciiUpper(s[i]) ==> Lower(s)[i] == s[i]
    ensures Lower(Lower(s)) == Lower(s)
  {
  }

  /** After `upper()` no ASCII lower-case letter is left, every other
      character is kept, and upper-casing again changes nothing. */
  lemma UpperMeaning(s: string)
    ensures |Upper(s)| == |s|
    ensures forall i :: 0 <= i < |s| ==> !IsAsciiLower(Upper(s)[i])
    ensures forall i :: 0 <= i < |s| && !IsAsciiLower(s[i]) ==> Upper(s)[i] == s[i]
    ensures Upper(Upper(s)) == Upper(s)
  {
  }

  /** A prefix with no lower-case letter survives `upper()`. */
  lemma UpperKeepsPrefix(s: string, p: string)
    requires StartsWith(s, p)
    requires forall i :: 0 <= i < |p| ==> !IsAsciiLower(p[i])
    ensures StartsWith(Upper(s), p)
  {
    forall i | 0 <= i < |p|
      ensures Upper(s)[i] == p[i]
    {
      assert s[i] == p[i];
    }
  }

  // ---------------------------------------------------------------------
  // Prefixes and substrings
  // ---------------------------------------------------------------------

  /** `s.startswith(p)` */
  predicate StartsWith(s: string, p: string)
  {
    p <= s
  }

  /** `s.startswith(tuple(prefixes))`: some prefix in the tuple matches. */
  predicate StartsWithAny(s: string, prefixes: seq<string>)
  {
    exists p :: p in prefixes && StartsWith(s, p)
  }

  /** `p in s`: `p` occurs in `s` at the front or somewhere in the tail. */
  predicate Contains(s: string, p: string)
    decreases |s|
  {
    StartsWith(s, p) || (|s| > 0 && Contains(s[1..], p))
  }

  /** Every string is a substring of itself. */
  lemma ContainsItself(s: string)
    ensures Contains(s, s)
  {
  }

  /** `p` occurs in `s` starting at index `i`. */
  predicate OccursAt(s: string, p: string, i: int)
  {
    0 <= i <= |s| - |p| && s[i..i + |p|] == p
  }

  /** The scanning definition of `Contains` agrees with the positional one:
      `p` occurs in `s` exactly when some slice of `s` equals `p`. */
  lemma {:induction false} ContainsWitness(s: string, p: string)
    ensures Contains(s, p) <==> exists i :: OccursAt(s, p, i)
    decreases |s|
  {
    if Contains(s, p) {
      if StartsWith(s, p) {
        assert OccursAt(s, p, 0);
      } else {
        ContainsWitness(s[1..], p);
        var i :| OccursAt(s[1..], p, i);
        forall k | 0 <= k < |p| ensures s[i + 1 + k] == p[k] {
          assert s[1..][i..i + |p|][k] == p[k];
        }
        assert s[i + 1..i + 1 + |p|] == p;
        assert OccursAt(s, p, i + 1);
      }
    }
    if exists i :: OccursAt(s, p, i) {
      var i :| OccursAt(s, p, i);
      if i == 0 {
        assert StartsWith(s, p);
      } else {
        forall k | 0 <= k < |p| ensures s[1..][i - 1 + k] == p[k] {
          assert s[i..i + |p|][k] == p[k];
        }
        assert s[1..][i - 1..i - 1 + |p|] == p;
        assert OccursAt(s[1..], p, i - 1);
        ContainsWitness(s[1..], p);
      }
    }
  }

  /** A pattern longer than the text does not occur in it. */
  lemma {:induction false} TooLongToContain(s: string, p: string)
    requires |p| > |s|
    ensures !Contains(s, p)
    decreases |s|
  {
    if s != [] {
      TooLongToContain(s[1..], p);
    }
  }

  /** A single character occurs as a substring exactly when it is an element. */
  lemma {:induction false} ContainsChar(s: string, c: char)
    ensures Contains(s, [c]) <==> c in s
    decreases |s|
  {
    if s != [] {
      ContainsChar(s[1..], c);
      assert s == [s[0]] + s[1..];
    }
  }

  /** An occurrence in a prefix of `s` is an occurrence in `s`. */
  lemma {:induction false} ContainsInPrefix(t: string, s: string, p: string)
    requires t <= s
    requires Contains(t, p)
    ensures Contains(s, p)
    decreases |t|
  {
    if StartsWith(t, p) {
      assert s[..|p|] == t[..|p|];
    } else {
      assert t[1..] <= s[1..];
      ContainsInPrefix(t[1..], s[1..], p);
    }
  }

  /** An occurrence in a suffix of `s` is an occurrence in `s`. */
  lemma {:induction false} ContainsInSuffix(s: string, k: nat, p: string)
    requires k <= |s|
    requires Contains(s[k..], p)
    ensures Contains(s, p)
    decreases k
  {
    if k > 0 {
      assert s[1..][k - 1..] == s[k..];
      ContainsInSuffix(s[1..], k - 1, p);
    }
  }

  /** An occurrence in a slice of `s` is an occurrence in `s`. */
  lemma ContainsInSlice(s: string, a: nat, b: nat, p: string)
    requires a <= b <= |s|
    requires Contains(s[a..b], p)
    ensures Contains(s, p)
  {
    assert s[a..b] <= s[a..];
    ContainsInPrefix(s[a..b], s[a..], p);
    ContainsInSuffix(s, a, p);
  }

  /** A string that contains `p + q` contains `p`. */
  lemma {:induction false} ContainsLonger(s: string, p: string, q: string)
    requires Contains(s, p + q)
    ensures Contains(s, p)
    decreases |s|
  {
    if StartsWith(s, p + q) {
      assert s[..|p|] == (p + q)[..|p|] == p;
    } else {
      ContainsLonger(s[1..], p, q);
    }
  }

  /** A pattern without the character `c` cannot straddle a `c`: an
      occurrence in `a + [c] + b` lies within `a` or within `b`. */
  lemma {:induction false} ContainsAcrossBarrier(a: string, c: char, b: string, p: string)
    requires p != [] && c !in p
    requires Contains(a + [c] + b, p)
    ensures Contains(a, p) || Contains(b, p)
    decreases |a|
  {
    var s := a + [c] + b;
    if StartsWith(s, p) {
      assert s[|a|] == c;
      assert forall i :: 0 <= i < |p| ==> s[i] == p[i] != c;
      assert a[..|p|] == s[..|p|];
    } else if a == [] {
      assert s[1..] == b;
    } else {
      assert s[1..] == a[1..] + [c] + b;
      ContainsAcrossBarrier(a[1..], c, b, p);
    }
  }

  // ---------------------------------------------------------------------
  // find, split and join
  // ---------------------------------------------------------------------

  /** The index of the first `c` in `s`, or `|s|` when there is none
      (`s.find(c)`, with `|s|` in place of -1). */
  function Find(s: string, c: char): (i: nat)
    ensures i <= |s|
    ensures forall j :: 0 <= j < i ==> s[j] != c
    ensures i < |s| ==> s[i] == c
    decreases |s|
  {
    if s == [] then 0
    else if s[0] == c then 0
    else 1 + Find(s[1..], c)
  }

  /** `s.split(sep)` for a one-character separator: the pieces between
      separators, from left to right; there is always at least one. */
  function Split(s: string, sep: char): (parts: seq<string>)
    ensures |parts| >= 1
    ensures forall k :: 0 <= k < |parts| ==> sep !in parts[k]
    decreases |s|
  {
    var i := Find(s, sep);
    if i == |s| then [s] else [s[..i]] + Split(s[i + 1..], sep)
  }

  /** `sep.join(parts)` for a one-character separator. */
  function Join(parts: seq<string>, sep: char): string
  {
    if |parts| == 0 then []
    else if |parts| == 1 then parts[0]
    else parts[0] + [sep] + Join(parts[1..], sep)
  }

  /** One step of `Split` at the first separator. */
  lemma SplitStep(s: string, sep: char)
    requires Find(s, sep) < |s|
    ensures Split(s, sep) == [s[..Find(s, sep)]] + Split(s[Find(s, sep) + 1..], sep)
  {
  }

  /** Joining the pieces of a split gives back the string. */
  lemma {:induction false} JoinSplit(s: string, sep: char)
    ensures Join(Split(s, sep), sep) == s
    decreases |s|
  {
    var i := Find(s, sep);
    if i < |s| {
      var tail := s[i + 1..];
      SplitStep(s, sep);
      JoinSplit(tail, sep);
      var rest := Split(tail, sep);
      assert ([s[..i]] + rest)[1..] == rest;
      assert Join(Split(s, sep), sep) == s[..i] + [sep] + Join(rest, sep);
      assert s == s[..i] + [sep] + tail;
    }
  }

  /** Splitting a join of separator-free strings gives back the strings. */
  lemma {:induction false} SplitJoin(parts: seq<string>, sep: char)
    requires |parts| >= 1
    requires forall k :: 0 <= k < |parts| ==> sep !in parts[k]
    ensures Split(Join(parts, sep), sep) == parts
    decreases |parts|
  {
    var s := Join(parts, sep);
    var p := parts[0];
    if |parts| == 1 {
    } else {
      var rest := Join(parts[1..], sep);
      assert s == p + [sep] + rest;
      assert s[|p|] == sep;
      assert s[..|p|] == p;
      assert s[|p| + 1..] == rest;
      SplitJoin(parts[1..], sep);
    }
  }

  /** A pattern absent from `s` is absent from every piece of its split. */
  lemma {:induction false} SplitKeepsAbsence(s: string, sep: char, p: string)
    requires !Contains(s, p)
    ensures forall k :: 0 <= k < |Split(s, sep)| ==> !Contains(Split(s, sep)[k], p)
    decreases |s|
  {
    var i := Find(s, sep);
    if i < |s| {
      var tail := s[i + 1..];
      if Contains(s[..i], p) {
        ContainsInPrefix(s[..i], s, p);
      }
      if Contains(tail, p) {
        ContainsInSuffix(s, i + 1, p);
      }
      SplitKeepsAbsence(tail, sep, p);
      SplitStep(s, sep);
      var parts := Split(s, sep);
      var rest := Split(tail, sep);
      forall k | 0 <= k < |parts|
        ensures !Contains(parts[k], p)
      {
        if k > 0 {
          assert parts[k] == rest[k - 1];
        }
      }
    }
  }

  /** A pattern absent from every part and free of the separator is absent
      from their join. */
  lemma {:induction false} JoinKeepsAbsence(parts: seq<string>, sep: char, p: string)
    requires p != [] && sep !in p
    requires forall k :: 0 <= k < |parts| ==> !Contains(parts[k], p)
    ensures !Contains(Join(parts, sep), p)
    decreases |parts|
  {
    if |parts| > 1 {
      JoinKeepsAbsence(parts[1..], sep, p);
      if Contains(Join(parts, sep), p) {
        ContainsAcrossBarrier(parts[0], sep, Join(parts[1..], sep), p);
        assert false;
      }
    } else if |parts| == 0 {
      assert !StartsWith([], p);
    }
  }

  // ---------------------------------------------------------------------
  // strip
  // ---------------------------------------------------------------------

  /** `s.lstrip()`: the suffix left after dropping leading whitespace. */
  function TrimLeft(s: string): (r: string)
    ensures |r| <= |s| && r == s[|s| - |r|..]
    ensures forall i :: 0 <= i < |s| - |r| ==> IsSpace(s[i])
    ensures r == [] || !IsSpace(r[0])
    decreases |s|
  {
    if |s| > 0 && IsSpace(s[0]) then TrimLeft(s[1..]) else s
  }

  /** `s.rstrip()`: the prefix left after dropping trailing whitespace. */
  function TrimRight(s: string): (r: string)
    ensures |r| <= |s| && r == s[..|r|]
    ensures forall i :: |r| <= i < |s| ==> IsSpace(s[i])
    ensures r == [] || !IsSpace(r[|r| - 1])
    decreases |s|
  {
    if |s| > 0 && IsSpace(s[|s| - 1]) then TrimRight(s[..|s| - 1]) else s
  }

  /** `s.strip()` */
  function Strip(s: string): (r: string)
    ensures r == [] || (!IsSpace(r[0]) && !IsSpace(r[|r| - 1]))
  {
    TrimRight(TrimLeft(s))
  }

  /** `strip()` keeps one contiguous slice of `s` and drops only whitespace
      on either side of it. */
  lemma StripSlice(s: string) returns (a: nat)
    ensures a + |Strip(s)| <= |s| && Strip(s) == s[a..a + |Strip(s)|]
    ensures forall i :: 0 <= i < a ==> IsSpace(s[i])
    ensures forall i :: a + |Strip(s)| <= i < |s| ==> IsSpace(s[i])
  {
    var l := TrimLeft(s);
    a := |s| - |l|;
    var r := TrimRight(l);
    SuffixPrefix(s, a, |r|);
  }

  /** A prefix of a suffix of `s` is a slice of `s`, indexed from `a`. */
  lemma SuffixPrefix(s: string, a: nat, m: nat)
    requires a + m <= |s|
    ensures s[a..][..m] == s[a..a + m]
    ensures forall i :: a <= i < |s| ==> s[a..][i - a] == s[i]
  {
  }

  /** A string equals its own strip exactly when it is empty or begins and
      ends with a non-space; in particular `strip()` is idempotent. */
  lemma StripFixpoint(s: string)
    ensures Strip(s) == s <==> (s == [] || (!IsSpace(s[0]) && !IsSpace(s[|s| - 1])))
    ensures Strip(Strip(s)) == Strip(s)
  {
    var r := Strip(s);
    if r != [] {
      assert TrimLeft(r) == r;
    }
    if s != [] && !IsSpace(s[0]) && !IsSpace(s[|s| - 1]) {
      assert TrimLeft(s) == s;
    }
  }

  /** A string without ASCII capitals keeps none after `strip()`. */
  lemma StripKeepsLower(s: string)
    requires forall i :: 0 <= i < |s| ==> !IsAsciiUpper(s[i])
    ensures forall i :: 0 <= i < |Strip(s)| ==> !IsAsciiUpper(Strip(s)[i])
  {
    var a := StripSlice(s);
    forall i | 0 <= i < |Strip(s)| ensures !IsAsciiUpper(Strip(s)[i]) {
      assert Strip(s)[i] == s[a + i];
    }
  }

  /** A pattern absent from `s` is absent from its strip. */
  lemma StripKeepsAbsence(s: string, p: string)
    requires !Contains(s, p)
    ensures !Contains(Strip(s), p)
  {
    var a := StripSlice(s);
    if Contains(Strip(s), p) {
      ContainsInSlice(s, a, a + |Strip(s)|, p);
    }
  }

  /** A character absent from `s` is absent from its strip. */
  lemma StripKeepsChar(s: string, c: char)
    requires c !in s
    ensures c !in Strip(s)
  {
    ContainsChar(s, c);
    StripKeepsAbsence(s, [c]);
    ContainsChar(Strip(s), c);
  }

  /** Leading whitespace in front of a string that starts with a non-space
      is exactly what `lstrip()` removes. */
  lemma TrimLeftPadded(l: string, t: string)
    requires forall i :: 0 <= i < |l| ==> IsSpace(l[i])
    requires t != [] && !IsSpace(t[0])
    ensures TrimLeft(l + t) == t
  {
    var s := l + t;
    var r := TrimLeft(s);
    assert s[|l|] == t[0];
    assert |r| > 0 ==> r[0] == s[|s| - |r|];
    assert s[|l|..] == t;
  }

  /** Trailing whitespace behind a string that ends with a non-space is
      exactly what `rstrip()` removes. */
  lemma TrimRightPadded(m: string, r: string)
    requires m != [] && !IsSpace(m[|m| - 1])
    requires forall i :: 0 <= i < |r| ==> IsSpace(r[i])
    ensures TrimRight(m + r) == m
  {
    var s := m + r;
    var u := TrimRight(s);
    assert s[|m| - 1] == m[|m| - 1];
    assert s[..|m|] == m;
  }

  /** `strip()` of a string padded only with whitespace on either side,
      whose ends are not whitespace, is that string. */
  lemma StripPadded(l: string, m: string, r: string)
    requires forall i :: 0 <= i < |l| ==> IsSpace(l[i])
    requires m != [] && !IsSpace(m[0]) && !IsSpace(m[|m| - 1])
    requires forall i :: 0 <= i < |r| ==> IsSpace(r[i])
    ensures Strip(l + m + r) == m
  {
    assert l + m + r == l + (m + r);
    TrimLeftPadded(l, m + r);
    TrimRightPadded(m, r);
  }

  // ---------------------------------------------------------------------
  // replace
  // ---------------------------------------------------------------------

  /** `s.replace(pat, rep)`: every occurrence of `pat`, found from left to
      right without overlapping, is replaced by `rep`. For an empty `pat`
      Python puts `rep` before every character and at the end. */
  function ReplaceAll(s: string, pat: string, rep: string): string
    decreases |s|
  {
    if pat == [] then
      (if s == [] then rep else rep + [s[0]] + ReplaceAll(s[1..], pat, rep))
    else if StartsWith(s, pat) then rep + ReplaceAll(s[|pat|..], pat, rep)
    else if s == [] then []
    else [s[0]] + ReplaceAll(s[1..], pat, rep)
  }

  /** Replacing a pattern that does not occur changes nothing. */
  lemma {:induction false} ReplaceAbsent(s: string, pat: string, rep: string)
    requires !Contains(s, pat)
    ensures ReplaceAll(s, pat, rep) == s
    decreases |s|
  {
    if s != [] {
      ReplaceAbsent(s[1..], pat, rep);
    }
  }

  /** Replacing one character by another acts character by character. */
  lemma {:induction false} ReplaceCharPointwise(s: string, oldC: char, newC: char)
    ensures |ReplaceAll(s, [oldC], [newC])| == |s|
    ensures forall i :: 0 <= i < |s| ==>
      ReplaceAll(s, [oldC], [newC])[i] == (if s[i] == oldC then newC else s[i])
    decreases |s|
  {
    if s != [] {
      ReplaceCharPointwise(s[1..], oldC, newC);
      if s[0] == oldC {
        assert StartsWith(s, [oldC]);
        assert s[|[oldC]|..] == s[1..];
      }
      var r := ReplaceAll(s, [oldC], [newC]);
      var t := ReplaceAll(s[1..], [oldC], [newC]);
      assert r == [r[0]] + t;
      forall i | 1 <= i < |s|
        ensures r[i] == (if s[i] == oldC then newC else s[i])
      {
        assert r[i] == t[i - 1] && s[i] == s[1..][i - 1];
      }
    }
  }

  /** After replacing a character by a different one, it no longer occurs. */
  lemma ReplaceCharRemoves(s: string, oldC: char, newC: char)
    requires oldC != newC
    ensures oldC !in ReplaceAll(s, [oldC], [newC])
  {
    ReplaceCharPointwise(s, oldC, newC);
  }

  /** Replacing a character by another cannot create an occurrence of a
      pattern that does not mention the new character. */
  lemma ReplaceCharKeepsAbsence(s: string, oldC: char, newC: char, p: string)
    requires newC !in p
    requires !Contains(s, p)
    ensures !Contains(ReplaceAll(s, [oldC], [newC]), p)
  {
    var r := ReplaceAll(s, [oldC], [newC]);
    ReplaceCharPointwise(s, oldC, newC);
    ContainsWitness(r, p);
    ContainsWitness(s, p);
    forall i | OccursAt(r, p, i) ensures OccursAt(s, p, i) {
      forall k | 0 <= k < |p| ensures s[i + k] == p[k] {
        assert r[i + k] == p[k];
      }
    }
  }

  /** The number of copies of `c` at the front of `s`. */
  function LeadingRun(s: string, c: char): (n: nat)
    ensures n <= |s|
    ensures forall i :: 0 <= i < n ==> s[i] == c
    ensures n < |s| ==> s[n] != c
    decreases |s|
  {
    if s != [] && s[0] == c then 1 + LeadingRun(s[1..], c) else 0
  }

  /** Three copies of `c` start `s` exactly when its leading run of `c` is at least three long. */
  lemma TripleAtFront(s: string, c: char)
    ensures StartsWith(s, [c, c, c]) <==> LeadingRun(s, c) >= 3
  {
    var n := LeadingRun(s, c);
    if n >= 3 {
      assert s[..3] == [c, c, c];
    }
    if StartsWith(s, [c, c, c]) {
      assert s[0] == c && s[1] == c && s[2] == c;
    }
  }

  /** One step of `ReplaceAll` when the pattern is found at the front. */
  lemma ReplaceAtMatch(s: string, pat: string, rep: string)
    requires pat != [] && StartsWith(s, pat)
    ensures ReplaceAll(s, pat, rep) == rep + ReplaceAll(s[|pat|..], pat, rep)
  {
  }

  /** One step of `ReplaceAll` when the pattern is not at the front. */
  lemma ReplaceAtSkip(s: string, pat: string, rep: string)
    requires pat != [] && !StartsWith(s, pat) && s != []
    ensures ReplaceAll(s, pat, rep) == [s[0]] + ReplaceAll(s[1..], pat, rep)
  {
  }

  /** A pattern whose first character differs from that of `s` does not start `s`. */
  lemma FirstDiffers(s: string, p: string)
    requires s != [] && p != [] && s[0] != p[0]
    ensures !StartsWith(s, p)
  {
  }

  /** A prefix that does not contain the first character of the pattern is
      copied unchanged, and replacing goes on after it. */
  lemma {:induction false} ReplacePrefixFree(x: string, y: string, pat: string, rep: string)
    requires pat != [] && pat[0] !in x
    ensures ReplaceAll(x + y, pat, rep) == x + ReplaceAll(y, pat, rep)
    decreases |x|
  {
    if x == [] {
      assert x + y == y;
    } else {
      var s := x + y;
      var rest := ReplaceAll(y, pat, rep);
      FirstDiffers(s, pat);
      ReplaceAtSkip(s, pat, rep);
      assert s[1..] == x[1..] + y;
      ReplacePrefixFree(x[1..], y, pat, rep);
      assert [s[0]] + (x[1..] + rest) == x + rest;
    }
  }

  /** Replacing one character by another distributes over concatenation. */
  lemma {:induction false} ReplaceCharConcat(x: string, y: string, oldC: char, newC: char)
    ensures ReplaceAll(x + y, [oldC], [newC]) ==
      ReplaceAll(x, [oldC], [newC]) + ReplaceAll(y, [oldC], [newC])
    decreases |x|
  {
    if x == [] {
      assert x + y == y;
    } else {
      var s := x + y;
      assert s[0] == x[0];
      assert s[1..] == x[1..] + y;
      ReplaceCharConcat(x[1..], y, oldC, newC);
      if x[0] == oldC {
        ReplaceAtMatch(s, [oldC], [newC]);
        ReplaceAtMatch(x, [oldC], [newC]);
      } else {
        ReplaceAtSkip(s, [oldC], [newC]);
        ReplaceAtSkip(x, [oldC], [newC]);
      }
    }
  }

  /** Three leading copies of `c` account for three of the leading run. */
  lemma LeadingRunDrop3(s: string, c: char)
    requires StartsWith(s, [c, c, c])
    ensures LeadingRun(s, c) == 3 + LeadingRun(s[3..], c)
  {
    assert s[1..][1..][1..] == s[3..];
  }

  /** The leading run of `c` in `[x] + t`, from that of `t`. */
  lemma LeadingRunCons(x: char, t: string, c: char)
    ensures LeadingRun([x] + t, c) == if x == c then 1 + LeadingRun(t, c) else 0
  {
    assert ([x] + t)[1..] == t;
  }

  /** A pattern occurs in `[x] + t` when it starts it or occurs in `t`. */
  lemma ContainsCons(x: char, t: string, p: string)
    ensures Contains([x] + t, p) <==> StartsWith([x] + t, p) || Contains(t, p)
  {
    assert ([x] + t)[1..] == t;
  }

  /** Putting one character in front of two strings whose leading runs of
      `c` agree (or a character other than `c` in front of any two) gives
      equal leading runs, and when the new run stays below three no three
      `c`s in a row appear. */
  lemma ConsKeepsShortRun(x: char, t: string, u: string, c: char)
    requires x == c ==> LeadingRun(t, c) == LeadingRun(u, c)
    requires !Contains(t, [c, c, c])
    requires LeadingRun([x] + u, c) < 3
    ensures LeadingRun([x] + t, c) == LeadingRun([x] + u, c)
    ensures !Contains([x] + t, [c, c, c])
  {
    LeadingRunCons(x, t, c);
    LeadingRunCons(x, u, c);
    ContainsCons(x, t, [c, c, c]);
    TripleAtFront([x] + t, c);
  }

  /** Removing three from a count keeps its remainder modulo three. */
  lemma ModThreeStep(n: nat)
    ensures (3 + n) % 3 == n % 3
  {
  }

  /** A count below three is its own remainder modulo three. */
  lemma SmallMod(n: nat)
    requires n < 3
    ensures n % 3 == n
  {
  }

  /** The step of `DeleteTriples` where three `c`s start `s`. */
  lemma DeleteTriplesMatch(s: string, c: char, t: string)
    requires StartsWith(s, [c, c, c])
    requires t == ReplaceAll(s[3..], [c, c, c], [])
    requires LeadingRun(t, c) == LeadingRun(s[3..], c) % 3
    requires !Contains(t, [c, c, c])
    ensures ReplaceAll(s, [c, c, c], []) == t
    ensures LeadingRun(t, c) == LeadingRun(s, c) % 3
  {
    ReplaceAtMatch(s, [c, c, c], []);
    assert [] + t == t;
    LeadingRunDrop3(s, c);
    ModThreeStep(LeadingRun(s[3..], c));
  }

  /** The step of `DeleteTriples` where three `c`s do not start `s`. */
  lemma DeleteTriplesSkip(s: string, c: char, t: string)
    requires s != [] && !StartsWith(s, [c, c, c])
    requires t == ReplaceAll(s[1..], [c, c, c], [])
    requires LeadingRun(t, c) == LeadingRun(s[1..], c) % 3
    requires !Contains(t, [c, c, c])
    ensures ReplaceAll(s, [c, c, c], []) == [s[0]] + t
    ensures LeadingRun([s[0]] + t, c) == LeadingRun(s, c) % 3
    ensures !Contains([s[0]] + t, [c, c, c])
  {
    ReplaceAtSkip(s, [c, c, c], []);
    TripleAtFront(s, c);
    assert [s[0]] + s[1..] == s;
    LeadingRunCons(s[0], s[1..], c);
    if s[0] == c {
      SmallMod(LeadingRun(s[1..], c));
    }
    SmallMod(LeadingRun(s, c));
    ConsKeepsShortRun(s[0], t, s[1..], c);
  }

  /** Deleting every run of three `c`s from left to right leaves the leading
      run of `c` shortened to its length modulo three, and no three `c`s in a
      row survive anywhere. */
  lemma {:induction false} DeleteTriples(s: string, c: char)
    ensures LeadingRun(ReplaceAll(s, [c, c, c], []), c) == LeadingRun(s, c) % 3
    ensures !Contains(ReplaceAll(s, [c, c, c], []), [c, c, c])
    decreases |s|
  {
    if StartsWith(s, [c, c, c]) {
      DeleteTriples(s[3..], c);
      DeleteTriplesMatch(s, c, ReplaceAll(s[3..], [c, c, c], []));
    } else if s != [] {
      DeleteTriples(s[1..], c);
      DeleteTriplesSkip(s, c, ReplaceAll(s[1..], [c, c, c], []));
    }
  }
}
