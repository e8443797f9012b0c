/**
  String helpers that mirror the Python built-ins the pipeline relies on:
  `str.isspace`, `str.strip`, `str.lower`, `str.startswith` and `str.split`.
  Only the ASCII part of Python's whitespace and case tables is modelled.
 */
module Text {

  /** The ASCII characters for which Python's `str.isspace()` holds; `str.strip()`
      and the regular-expression class `\s` both use this predicate. */
  predicate IsSpace(c: char) {
    c == ' ' || c == '\t' || c == '\n' || c == '\r' || c == '\U{B}' || c == '\U{C}'
    || ('\U{1C}' <= c <= '\U{1F}')
  }

  predicate AllSpace(s: string) {
    forall i :: 0 <= i < |s| ==> IsSpace(s[i])
  }

  /** Neither starts nor ends with whitespace: what `strip()` produces. */
  predicate IsStripped(s: string) {
    s == [] || (!IsSpace(s[0]) && !IsSpace(s[|s| - 1]))
  }

  /** Removes the leading whitespace (`str.lstrip()`): the result is the suffix that
      starts at the first non-space character. */
  function TrimLeft(s: string): (r: string)
    ensures |r| <= |s|
    ensures r == [] || !IsSpace(r[0])
  {
    if s != [] && IsSpace(s[0]) then TrimLeft(s[1..]) else s
  }

  /** Removes the trailing whitespace (`str.rstrip()`): the result is the prefix that
      ends at the last non-space character. */
  function TrimRight(s: string): (r: string)
    ensures |r| <= |s|
    ensures r == [] || !IsSpace(r[|r| - 1])
  {
    if s != [] && IsSpace(s[|s| - 1]) then TrimRight(s[..|s| - 1]) else s
  }

  /** `lstrip` keeps a suffix and what it removes is whitespace. */
  lemma {:induction false} TrimLeftDropsSpaces(s: string)
    ensures TrimLeft(s) == s[|s| - |TrimLeft(s)|..]
    ensures AllSpace(s[..|s| - |TrimLeft(s)|])
  {
    if s != [] && IsSpace(s[0]) {
      TrimLeftDropsSpaces(s[1..]);
      var k := |s| - |TrimLeft(s)|;
      assert forall i :: 1 <= i < k ==> s[..k][i] == s[1..][..k - 1][i - 1];
    }
  }

  /** `rstrip` keeps a prefix and what it removes is whitespace. */
  lemma {:induction false} TrimRightDropsSpaces(s: string)
    ensures TrimRight(s) == s[..|TrimRight(s)|]
    ensures AllSpace(s[|TrimRight(s)|..])
  {
    if s != [] && IsSpace(s[|s| - 1]) {
      var p := s[..|s| - 1];
      TrimRightDropsSpaces(p);
      var k := |TrimRight(s)|;
      assert forall i :: k <= i < |s| - 1 ==> s[i] == p[k..][i - k];
      assert forall i :: k <= i < |s| ==> s[k..][i - k] == s[i];
    }
  }

  /** Python's `str.strip()` with no argument. */
  function Strip(s: string): (r: string)
    ensures IsStripped(r)
    ensures |r| <= |s|
  {
    TrimRightDropsSpaces(TrimLeft(s));
    TrimRight(TrimLeft(s))
  }

  /** Every character of an all-whitespace prefix is whitespace. */
  lemma SpaceInPrefix(s: string, k: nat, m: nat)
    requires m < k <= |s| && AllSpace(s[..k])
    ensures IsSpace(s[m])
  {
    assert s[..k][m] == s[m];
  }

  /** Every character of an all-whitespace suffix is whitespace. */
  lemma SpaceInSuffix(s: string, k: nat, m: nat)
    requires k <= m < |s| && AllSpace(s[k..])
    ensures IsSpace(s[m])
  {
    assert s[k..][m - k] == s[m];
  }

  lemma AllSpaceTrimsToEmpty(s: string)
    requires AllSpace(s)
    ensures TrimLeft(s) == [] && TrimRight(s) == [] && Strip(s) == []
  {
  }

  /** Leading whitespace makes no difference to `lstrip`. */
  lemma {:induction false} TrimLeftSkipsSpaces(sp: string, x: string)
    requires AllSpace(sp)
    ensures TrimLeft(sp + x) == TrimLeft(x)
  {
    if sp != [] {
      assert (sp + x)[1..] == sp[1..] + x;
      TrimLeftSkipsSpaces(sp[1..], x);
    } else {
      assert sp + x == x;
    }
  }

  /** Trailing whitespace makes no difference to `rstrip`. */
  lemma {:induction false} TrimRightSkipsSpaces(x: string, sp: string)
    requires AllSpace(sp)
    ensures TrimRight(x + sp) == TrimRight(x)
  {
    if sp != [] {
      assert (x + sp)[..|x + sp| - 1] == x + sp[..|sp| - 1];
      TrimRightSkipsSpaces(x, sp[..|sp| - 1]);
    } else {
      assert x + sp == x;
    }
  }

  /** `lstrip` stops inside `x` when `x` holds a non-space character. */
  lemma {:induction false} TrimLeftAppend(x: string, y: string)
    requires TrimLeft(x) != []
    ensures TrimLeft(x + y) == TrimLeft(x) + y
  {
    assert (x + y)[0] == x[0];
    if IsSpace(x[0]) {
      assert (x + y)[1..] == x[1..] + y;
      TrimLeftAppend(x[1..], y);
    }
  }

  /** `rstrip` never reaches past a non-space character that ends `x`. */
  lemma {:induction false} TrimRightPrepend(x: string, y: string)
    requires x != [] && !IsSpace(x[|x| - 1])
    ensures TrimRight(x + y) == x + TrimRight(y)
  {
    if y == [] {
      assert x + y == x;
    } else if IsSpace(y[|y| - 1]) {
      assert (x + y)[..|x + y| - 1] == x + y[..|y| - 1];
      TrimRightPrepend(x, y[..|y| - 1]);
    }
  }

  /** Trailing whitespace makes no difference to `strip`. */
  lemma StripSkipsTrailingSpaces(x: string, sp: string)
    requires AllSpace(sp)
    ensures Strip(x + sp) == Strip(x)
  {
    if TrimLeft(x) != [] {
      TrimLeftAppend(x, sp);
      TrimRightSkipsSpaces(TrimLeft(x), sp);
    } else {
      TrimLeftDropsSpaces(x);
      assert AllSpace(x);
      assert AllSpace(x + sp);
      AllSpaceTrimsToEmpty(x + sp);
    }
  }

  /** `strip` recovers an already stripped string from any whitespace padding. */
  lemma StripPadded(sp1: string, x: string, sp2: string)
    requires AllSpace(sp1) && AllSpace(sp2) && IsStripped(x)
    ensures Strip(sp1 + x + sp2) == x
  {
    StripSkipsTrailingSpaces(sp1 + x, sp2);
    TrimLeftSkipsSpaces(sp1, x);
  }

  /** `strip` keeps the slice `s[i..j]`: whitespace before `i` and from `j` on is
      dropped, and an all-whitespace string is dropped entirely. */
  lemma StripBounds(s: string) returns (i: nat, j: nat)
    ensures i <= j <= |s| && Strip(s) == s[i..j] && TrimLeft(s) == s[i..]
    ensures AllSpace(s[..i]) && AllSpace(s[j..])
    ensures i == j ==> i == |s|
  {
    var l := TrimLeft(s);
    TrimLeftDropsSpaces(s);
    TrimRightDropsSpaces(l);
    i := |s| - |l|;
    j := i + |Strip(s)|;
    assert l[|Strip(s)|..] == s[j..];
    assert i == j ==> l[0..] == l;
  }

  /** Stripping only the right end first changes nothing for `strip`. */
  lemma StripTrimRight(s: string)
    ensures Strip(TrimRight(s)) == Strip(s)
  {
    var r := TrimRight(s);
    TrimRightDropsSpaces(s);
    assert s == r + s[|r|..];
    StripSkipsTrailingSpaces(r, s[|r|..]);
  }

  /** A slice of a slice is a slice of the original, from `x = i + a` to `y = i + b`. */
  lemma SliceOfSlice(s: string, i: nat, j: nat, a: nat, b: nat, x: nat, y: nat)
    requires i <= j <= |s| && a <= b <= j - i && x == i + a && y == i + b
    ensures s[i..j][a..b] == s[x..y]
  {
    forall k | 0 <= k < b - a ensures s[i..j][a..b][k] == s[x..y][k] {
      assert s[i..j][a..b][k] == s[i..j][a + k] == s[x + k];
    }
  }

  /** A prefix of a slice ends at `y = i + b`. */
  lemma TakeOfSlice(s: string, i: nat, j: nat, b: nat, y: nat)
    requires i <= j <= |s| && b <= j - i && y == i + b
    ensures s[i..j][..b] == s[i..y]
  {
    forall k | 0 <= k < b ensures s[i..j][..b][k] == s[i..y][k] {
      assert s[i..j][..b][k] == s[i..j][k] == s[i + k];
    }
  }

  /** A suffix of a slice starts at `x = i + a`. */
  lemma DropOfSlice(s: string, i: nat, j: nat, a: nat, x: nat)
    requires i <= j <= |s| && a <= j - i && x == i + a
    ensures s[i..j][a..] == s[x..j]
  {
  }

  /** Dropping `a` after dropping `n` is dropping `m = n + a`. */
  lemma DropDrop(s: string, n: nat, a: nat, m: nat)
    requires m == n + a <= |s|
    ensures s[n..][a..] == s[m..]
  {
  }

  /** Taking `b` after dropping `n` is the slice from `n` to `m = n + b`. */
  lemma TakeOfDrop(s: string, n: nat, b: nat, m: nat)
    requires m == n + b <= |s|
    ensures s[n..][..b] == s[n..m]
  {
  }

  /** Slices of a prefix are slices of the original. */
  lemma SliceOfPrefix(s: string, c: nat, a: nat, b: nat)
    requires a <= b <= c <= |s|
    ensures s[..c][a..b] == s[a..b] && s[..c][..a] == s[..a] && s[..c][b..] == s[b..c]
  {
  }

  /** Cutting a slice in two at `m`. */
  lemma SliceSplit(s: string, a: nat, m: nat, b: nat)
    requires a <= m <= b <= |s|
    ensures s[a..b] == s[a..m] + s[m..b]
    ensures s[a..] == s[a..m] + s[m..]
  {
  }

  /** ASCII lower-casing of one character (`str.lower()` on ASCII). */
  function LowerChar(c: char): (r: char)
    ensures 'A' <= c <= 'Z' ==> 'a' <= r <= 'z'
    ensures !('A' <= c <= 'Z') ==> r == c
  {
    if 'A' <= c <= 'Z' then (c as int + 32) as char else c
  }

  /** `str.lower()` on ASCII text. */
  function Lower(s: string): (r: string)
    ensures |r| == |s|
  {
    if s == [] then [] else [LowerChar(s[0])] + Lower(s[1..])
  }

  /** Lower-casing works character by character. */
  lemma {:induction false} LowerAt(s: string, i: int)
    requires 0 <= i < |s|
    ensures Lower(s)[i] == LowerChar(s[i])
  {
    if i > 0 {
      LowerAt(s[1..], i - 1);
    }
  }

  /** Lower-casing twice is lower-casing once. */
  lemma {:induction false} LowerIdempotent(s: string)
    ensures Lower(Lower(s)) == Lower(s)
  {
    if s != [] {
      LowerIdempotent(s[1..]);
      assert Lower(s)[1..] == Lower(s[1..]);
    }
  }

  /** Case-insensitive equality, as `re.IGNORECASE` compares ASCII letters:
      the strings agree once both are lower-cased. */
  predicate EqualsIgnoreCase(a: string, b: string) {
    Lower(a) == Lower(b)
  }

  lemma EqualsIgnoreCaseAt(a: string, b: string, i: int)
    requires EqualsIgnoreCase(a, b) && 0 <= i < |a|
    ensures LowerChar(a[i]) == LowerChar(b[i])
  {
    LowerAt(a, i);
    LowerAt(b, i);
  }

  /** Python's `str.startswith`. */
  predicate StartsWith(s: string, prefix: string)
    ensures StartsWith(s, prefix) ==> |prefix| <= |s| && forall i :: 0 <= i < |prefix| ==> s[i] == prefix[i]
  {
    |prefix| <= |s| && s[..|prefix|] == prefix
  }

  /** Python's `str.split(sep)` with a one-character separator: the pieces between
      consecutive separators, so `n` separators give `n + 1` pieces. */
  function Split(s: string, sep: char): (r: seq<string>)
    ensures |r| >= 1
    ensures forall i :: 0 <= i < |r| ==> sep !in r[i]
  {
    if s == [] then [""]
    else
      var rest := Split(s[1..], sep);
      if s[0] == sep then [""] + rest
      else [[s[0]] + rest[0]] + rest[1..]
  }

  /** Python's `sep.join(parts)`, the inverse of `Split`. */
  function Join(parts: seq<string>, sep: char): (r: string)
    requires |parts| >= 1
    decreases |parts|
  {
    if |parts| == 1 then parts[0] else parts[0] + [sep] + Join(parts[1..], sep)
  }

  /** Splitting and joining again gives back the text. */
  lemma {:induction false} JoinSplit(s: string, sep: char)
    ensures Join(Split(s, sep), sep) == s
  {
    if s != [] {
      var rest := Split(s[1..], sep);
      JoinSplit(s[1..], sep);
      if s[0] == sep {
        assert ([""] + rest)[1..] == rest;
      } else {
        var r := [[s[0]] + rest[0]] + rest[1..];
        if |rest| == 1 {
          assert r == [[s[0]] + rest[0]];
        } else {
          assert r[1..] == rest[1..];
          assert Join(rest, sep) == rest[0] + [sep] + Join(rest[1..], sep);
        }
      }
    }
  }

  /** Joining separator-free pieces and splitting again gives back the pieces. */
  lemma {:induction false} SplitJoin(parts: seq<string>, sep: char)
    requires |parts| >= 1
    requires forall i :: 0 <= i < |parts| ==> sep !in parts[i]
    ensures Split(Join(parts, sep), sep) == parts
  {
    if |parts| == 1 {
      SplitFree(parts[0], sep);
    } else {
      SplitJoin(parts[1..], sep);
      SplitPrefix(parts[0], Join(parts[1..], sep), sep);
      assert [parts[0]] + parts[1..] == parts;
    }
  }

  /** A separator-free string splits into itself. */
  lemma {:induction false} SplitFree(s: string, sep: char)
    requires sep !in s
    ensures Split(s, sep) == [s]
  {
    if s != [] {
      SplitFree(s[1..], sep);
      assert s[0] != sep;
      assert [s[0]] + s[1..] == s;
    }
  }

  /** A separator-free piece followed by a separator becomes the first piece. */
  lemma {:induction false} SplitPrefix(p: string, t: string, sep: char)
    requires sep !in p
    ensures Split(p + [sep] + t, sep) == [p] + Split(t, sep)
  {
    if p == [] {
      assert p + [sep] + t == [sep] + t;
      assert ([sep] + t)[1..] == t;
    } else {
      assert (p + [sep] + t)[1..] == p[1..] + [sep] + t;
      SplitPrefix(p[1..], t, sep);
      assert [p[0]] + p[1..] == p;
    }
  }
}
