/**
  The field parser: free text in, a record with the six fixed keys out.
  Each key maps to the value of the first line that reads `Label: value`
  (label in any letter case, whitespace allowed around the colon), or to
  `None` when no line does.
 */
module FieldParser {
  import opened Wrappers
  import opened Text

  /** The labels, in the order the parser tries them. */
  const FieldNames: seq<string> := ["Sr no.", "Name", "City", "Age", "Country", "Address"]

  /** A parsed record: field name to an optional value (`None` for "not found"). */
  type Record = map<string, Option<string>>

  /** The compiled pattern `^\s*LABEL\s*:\s*(.*)` (case-insensitive) applied with
      `match` to an already stripped line, followed by stripping the captured
      group. On a stripped line the leading `\s*` matches nothing; the greedy
      `\s*` after the colon and the final strip together remove exactly the
      whitespace around the value. */
  function PatternMatch(s: string, name: string): (r: Option<string>)
    ensures r.Some? ==> IsStripped(r.value) && |r.value| < |s| - |name|
  {
    if |s| < |name| || !EqualsIgnoreCase(s[..|name|], name) then None
    else
      var rest := TrimLeft(s[|name|..]);
      if rest != [] && rest[0] == ':' then Some(Strip(rest[1..])) else None
  }

  /** One line tested against one field: the pattern is matched on the stripped line. */
  function MatchField(line: string, name: string): (r: Option<string>)
    ensures r.Some? ==> IsStripped(r.value) && |r.value| < |line|
  {
    PatternMatch(Strip(line), name)
  }

  /** The reading of a `Label: value` line independent of how it is scanned:
      the colon at index `c` has exactly the label before it, up to letter case
      and surrounding whitespace, and `v` is what follows that colon, stripped. */
  ghost predicate LabelledAt(line: string, c: int, name: string, v: string) {
    0 <= c < |line| && line[c] == ':'
    && EqualsIgnoreCase(Strip(line[..c]), name)
    && v == Strip(line[c + 1..])
  }

  lemma LowerKeepsSpace(c: char)
    ensures IsSpace(LowerChar(c)) == IsSpace(c)
  {
  }

  /** Once the label is matched, the pattern needs optional whitespace and a colon. */
  lemma PatternMatchAfterLabel(s: string, name: string, R: string)
    requires |name| <= |s| && EqualsIgnoreCase(s[..|name|], name)
    requires TrimLeft(s[|name|..]) == [':'] + R
    ensures PatternMatch(s, name) == Some(Strip(R))
  {
    assert ([':'] + R)[1..] == R;
  }

  /** Whitespace and a colon that end `P`, followed by `R`, leave `:` then `R` for the pattern. */
  lemma ColonAfterGap(P: string, R: string, n: nat)
    requires n < |P| && P[|P| - 1] == ':'
    requires AllSpace(P[n..|P| - 1])
    ensures TrimLeft((P + R)[n..]) == [':'] + R
  {
    assert P[n..] == P[n..|P| - 1] + [':'];
    assert (P + R)[n..] == P[n..|P| - 1] + ([':'] + R);
    TrimLeftSkipsSpaces(P[n..|P| - 1], [':'] + R);
  }

  /** The pattern accepts the label, optional whitespace and a colon, then any rest. */
  lemma PatternMatchFormatted(P: string, R: string, name: string)
    requires |name| < |P| && EqualsIgnoreCase(P[..|name|], name)
    requires AllSpace(P[|name|..|P| - 1]) && P[|P| - 1] == ':'
    ensures PatternMatch(P + R, name) == Some(Strip(R))
  {
    assert (P + R)[..|name|] == P[..|name|];
    ColonAfterGap(P, R, |name|);
    PatternMatchAfterLabel(P + R, name, R);
  }

  /** `lstrip` starts at the first non-space character. */
  lemma TrimLeftAt(s: string, i: nat)
    requires i < |s| && AllSpace(s[..i]) && !IsSpace(s[i])
    ensures TrimLeft(s) == s[i..]
  {
    assert s == s[..i] + s[i..];
    TrimLeftSkipsSpaces(s[..i], s[i..]);
  }

  /** Where the parts of a `label: value` line sit: whitespace up to `i`, the
      label from `i` to `j`, whitespace from `j` to the colon at `c`. */
  lemma LabelledAtBounds(line: string, c: int, name: string, v: string) returns (i: nat)
    requires LabelledAt(line, c, name, v)
    ensures i + |name| <= c
    ensures AllSpace(line[..i]) && !IsSpace(line[i])
    ensures EqualsIgnoreCase(line[i..i + |name|], name) && AllSpace(line[i + |name|..c])
  {
    var A := line[..c];
    var j;
    i, j := StripBounds(A);
    SliceOfPrefix(line, c, i, j);
    assert j == i + |name|;
    if i < j {
      assert line[i] == A[i..j][0];
    }
  }

  /** The label and the gap before the colon, seen from the start of the label. */
  lemma LabelPrefix(line: string, i: nat, c: nat, name: string)
    requires i + |name| <= c < |line|
    requires EqualsIgnoreCase(line[i..i + |name|], name) && AllSpace(line[i + |name|..c])
    ensures EqualsIgnoreCase(line[i..c + 1][..|name|], name)
    ensures AllSpace(line[i..c + 1][|name|..c - i])
  {
    SliceOfSlice(line, i, c + 1, |name|, c - i, i + |name|, c);
    TakeOfSlice(line, i, c + 1, |name|, i + |name|);
  }

  /** What `strip` leaves of a `label: value` line: from the label through the
      colon, then the value part with its trailing whitespace removed. */
  lemma StripLabelledLine(line: string, c: int, name: string, v: string) returns (i: nat)
    requires LabelledAt(line, c, name, v)
    ensures i + |name| <= c && Strip(line) == line[i..c + 1] + TrimRight(line[c + 1..])
    ensures EqualsIgnoreCase(line[i..c + 1][..|name|], name)
    ensures AllSpace(line[i..c + 1][|name|..c - i])
  {
    i := LabelledAtBounds(line, c, name, v);
    TrimLeftAt(line, i);
    SliceSplit(line, i, c + 1, |line|);
    TrimRightPrepend(line[i..c + 1], line[c + 1..]);
    LabelPrefix(line, i, c, name);
  }

  /** Every line of the form `label: value` matches, with that value. */
  lemma MatchFieldComplete(line: string, c: int, name: string, v: string)
    requires LabelledAt(line, c, name, v)
    ensures MatchField(line, name) == Some(v)
  {
    var i := StripLabelledLine(line, c, name, v);
    var P, B := line[i..c + 1], line[c + 1..];
    assert P[|P| - 1] == line[c];
    PatternMatchFormatted(P, TrimRight(B), name);
    StripTrimRight(B);
  }

  /** The characters that match a stripped label case-insensitively form a stripped string. */
  lemma EqualsStrippedName(s: string, name: string)
    requires IsStripped(name) && EqualsIgnoreCase(s, name)
    requires s == [] || !IsSpace(s[0])
    ensures IsStripped(s)
  {
    if s != [] {
      EqualsIgnoreCaseAt(s, name, |s| - 1);
      LowerKeepsSpace(s[|s| - 1]);
      LowerKeepsSpace(name[|s| - 1]);
    }
  }

  /** What a successful match consists of. */
  lemma PatternMatchSome(s: string, name: string)
    requires PatternMatch(s, name).Some?
    ensures |name| <= |s| && EqualsIgnoreCase(s[..|name|], name)
    ensures TrimLeft(s[|name|..]) != [] && TrimLeft(s[|name|..])[0] == ':'
    ensures PatternMatch(s, name).value == Strip(TrimLeft(s[|name|..])[1..])
  {
  }

  /** The label part of a stripped line the pattern accepts is itself stripped. */
  lemma PatternMatchLabel(s: string, name: string)
    requires IsStripped(s) && IsStripped(name)
    requires PatternMatch(s, name).Some?
    ensures IsStripped(s[..|name|]) && EqualsIgnoreCase(s[..|name|], name)
  {
    PatternMatchSome(s, name);
    EqualsStrippedName(s[..|name|], name);
  }

  /** Where `lstrip` of the text after the label finds its colon. */
  lemma ColonAfterLabel(s: string, n: nat) returns (q: nat)
    requires n <= |s| && TrimLeft(s[n..]) != [] && TrimLeft(s[n..])[0] == ':'
    ensures n <= q < |s| && s[q] == ':' && AllSpace(s[n..q])
    ensures TrimLeft(s[n..])[1..] == s[q + 1..]
  {
    var t := s[n..];
    TrimLeftDropsSpaces(t);
    var k := |t| - |TrimLeft(t)|;
    q := n + k;
    TakeOfDrop(s, n, k, q);
    DropDrop(s, n, k + 1, q + 1);
    DropDrop(t, k, 1, k + 1);
    assert s[q] == t[k] == TrimLeft(t)[0];
  }

  /** Where the colon sits in a stripped line the pattern accepts. */
  lemma PatternMatchColon(s: string, name: string) returns (q: nat)
    requires IsStripped(s) && IsStripped(name)
    requires PatternMatch(s, name).Some?
    ensures |name| <= q < |s| && s[q] == ':'
    ensures IsStripped(s[..|name|]) && EqualsIgnoreCase(s[..|name|], name)
    ensures AllSpace(s[|name|..q]) && PatternMatch(s, name).value == Strip(s[q + 1..])
  {
    PatternMatchSome(s, name);
    q := ColonAfterLabel(s, |name|);
    PatternMatchLabel(s, name);
  }

  /** Padding around the label and before the colon disappears under `strip`. */
  lemma StripLabel(line: string, i: nat, n: nat, c: nat)
    requires i + n <= c <= |line|
    requires AllSpace(line[..i]) && IsStripped(line[i..i + n]) && AllSpace(line[i + n..c])
    ensures Strip(line[..c]) == line[i..i + n]
  {
    assert line[..c] == line[..i] + line[i..i + n] + line[i + n..c];
    StripPadded(line[..i], line[i..i + n], line[i + n..c]);
  }

  /** The label and the whitespace after it, found in the stripped part `line[i..j]`,
      are what `strip` leaves of the line up to the colon at `i + q`. */
  lemma LabelInLine(line: string, i: nat, j: nat, n: nat, q: nat)
    requires i <= j <= |line| && n <= q < j - i && AllSpace(line[..i])
    requires IsStripped(line[i..j][..n]) && AllSpace(line[i..j][n..q])
    ensures Strip(line[..i + q]) == line[i..j][..n]
  {
    TakeOfSlice(line, i, j, n, i + n);
    SliceOfSlice(line, i, j, n, q, i + n, i + q);
    StripLabel(line, i, n, i + q);
  }

  /** Trailing whitespace after `j` does not change the stripped value. */
  lemma ValueInLine(line: string, i: nat, j: nat, q: nat)
    requires i <= j <= |line| && q < j - i && AllSpace(line[j..])
    ensures Strip(line[i + q + 1..]) == Strip(line[i..j][q + 1..])
  {
    DropOfSlice(line, i, j, q + 1, i + q + 1);
    SliceSplit(line, i + q + 1, j, |line|);
    StripSkipsTrailingSpaces(line[i + q + 1..j], line[j..]);
  }

  /** A colon found in the stripped part `line[i..j]` of a line, after a label and
      whitespace, is a `label: value` colon of the whole line. */
  lemma ColonAt(line: string, i: nat, j: nat, q: nat, name: string)
    requires i <= j <= |line| && AllSpace(line[..i]) && AllSpace(line[j..])
    requires |name| <= q < j - i && line[i..j][q] == ':'
    requires IsStripped(line[i..j][..|name|]) && EqualsIgnoreCase(line[i..j][..|name|], name)
    requires AllSpace(line[i..j][|name|..q])
    ensures LabelledAt(line, i + q, name, Strip(line[i..j][q + 1..]))
  {
    LabelInLine(line, i, j, |name|, q);
    ValueInLine(line, i, j, q);
    assert line[i + q] == line[i..j][q];
  }

  /** A match inside the stripped part `line[i..j]` of a line is a `label: value`
      colon of the whole line. */
  lemma ColonWithin(line: string, i: nat, j: nat, name: string) returns (c: nat)
    requires i <= j <= |line| && AllSpace(line[..i]) && AllSpace(line[j..])
    requires IsStripped(line[i..j]) && IsStripped(name)
    requires PatternMatch(line[i..j], name).Some?
    ensures LabelledAt(line, c, name, PatternMatch(line[i..j], name).value)
  {
    var q := PatternMatchColon(line[i..j], name);
    ColonAt(line, i, j, q, name);
    c := i + q;
  }

  /** The colon a match was found at, in the coordinates of the original line. */
  lemma MatchFieldColon(line: string, name: string) returns (c: nat)
    requires IsStripped(name)
    requires MatchField(line, name).Some?
    ensures LabelledAt(line, c, name, MatchField(line, name).value)
  {
    var i, j := StripBounds(line);
    c := ColonWithin(line, i, j, name);
  }

  /** Every match is a line of the form `label: value` with the value returned. */
  lemma MatchFieldSound(line: string, name: string)
    requires IsStripped(name)
    requires MatchField(line, name).Some?
    ensures exists c :: LabelledAt(line, c, name, MatchField(line, name).value)
  {
    var c := MatchFieldColon(line, name);
  }

  /** The scanner agrees with the `Label: value` reading in both directions. */
  lemma MatchFieldSpec(line: string, name: string, v: string)
    requires IsStripped(name)
    ensures MatchField(line, name) == Some(v) <==> exists c :: LabelledAt(line, c, name, v)
  {
    if MatchField(line, name) == Some(v) {
      MatchFieldSound(line, name);
    }
    if c :| LabelledAt(line, c, name, v) {
      MatchFieldComplete(line, c, name, v);
    }
  }

  /** A line without a colon never matches, so a bare label leaves the field absent. */
  lemma NoColonNoMatch(line: string, name: string)
    requires IsStripped(name)
    ensures ':' !in line ==> MatchField(line, name) == None
  {
    if MatchField(line, name).Some? {
      MatchFieldSound(line, name);
      var c :| LabelledAt(line, c, name, MatchField(line, name).value);
      assert line[c] == ':';
    }
  }

  /** A label followed only by a colon (whitespace allowed around both) matches
      with the empty value: the field is present but empty, not absent. */
  lemma LabelOnlyGivesEmpty(sp1: string, name: string, sp2: string, sp3: string)
    requires IsStripped(name) && AllSpace(sp1) && AllSpace(sp2) && AllSpace(sp3)
    ensures MatchField(sp1 + name + sp2 + [':'] + sp3, name) == Some("")
  {
    var line := sp1 + name + sp2 + [':'] + sp3;
    var c := |sp1| + |name| + |sp2|;
    assert line[..c] == sp1 + name + sp2;
    assert line[c + 1..] == sp3;
    StripPadded(sp1, name, sp2);
    AllSpaceTrimsToEmpty(sp3);
    MatchFieldComplete(line, c, name, "");
  }

  /** A longer word that merely begins with the label (`Names: x` for `Name`)
      does not match: after the label only whitespace or the colon may follow. */
  lemma LongerWordNoMatch(name: string, ch: char, rest: string)
    requires IsStripped(name) && name != []
    requires !IsSpace(ch) && ch != ':'
    ensures MatchField(name + [ch] + rest, name) == None
  {
    var line := name + [ch] + rest;
    var n := |name|;
    var i, j := StripBounds(line);
    if i > 0 {
      SpaceInPrefix(line, i, 0);
    }
    if j <= n {
      SpaceInSuffix(line, j, n);
    }
    var s := Strip(line);
    assert s[n] == ch;
    var x := s[n..];
    assert x[0] == ch;
    TrimLeftDropsSpaces(x);
    assert TrimLeft(x)[0] == ch;
  }

  /** The value of the first line, top to bottom, that matches `name`. */
  function FirstMatch(lines: seq<string>, name: string): (r: Option<string>)
    ensures r.Some? ==> IsStripped(r.value)
  {
    if lines == [] then None
    else if MatchField(lines[0], name).Some? then MatchField(lines[0], name)
    else FirstMatch(lines[1..], name)
  }

  /** Line `i` matches `name` and no line above it does. */
  ghost predicate FirstMatchingLine(lines: seq<string>, name: string, i: int) {
    0 <= i < |lines| && MatchField(lines[i], name).Some?
    && forall j :: 0 <= j < i ==> MatchField(lines[j], name) == None
  }

  lemma {:induction false} FirstMatchIsFirst(lines: seq<string>, name: string, i: int)
    requires FirstMatchingLine(lines, name, i)
    ensures FirstMatch(lines, name) == MatchField(lines[i], name)
  {
    if i > 0 {
      assert MatchField(lines[0], name) == None;
      assert FirstMatchingLine(lines[1..], name, i - 1) by {
        forall j | 0 <= j < i - 1 ensures MatchField(lines[1..][j], name) == None {
          assert lines[1..][j] == lines[j + 1];
        }
      }
      FirstMatchIsFirst(lines[1..], name, i - 1);
    }
  }

  lemma {:induction false} FirstMatchFound(lines: seq<string>, name: string)
    requires FirstMatch(lines, name).Some?
    ensures exists i :: FirstMatchingLine(lines, name, i) && MatchField(lines[i], name) == FirstMatch(lines, name)
  {
    if MatchField(lines[0], name).Some? {
      assert FirstMatchingLine(lines, name, 0);
    } else {
      FirstMatchFound(lines[1..], name);
      var i :| FirstMatchingLine(lines[1..], name, i)
               && MatchField(lines[1..][i], name) == FirstMatch(lines[1..], name);
      assert lines[1..][i] == lines[i + 1];
      forall j | 0 <= j < i + 1 ensures MatchField(lines[j], name) == None {
        if j > 0 {
          assert lines[j] == lines[1..][j - 1];
        }
      }
      assert FirstMatchingLine(lines, name, i + 1);
    }
  }

  /** A field stays absent exactly when no line matches it. */
  lemma {:induction false} FirstMatchNone(lines: seq<string>, name: string)
    ensures FirstMatch(lines, name) == None <==> forall i :: 0 <= i < |lines| ==> MatchField(lines[i], name) == None
  {
    if lines != [] {
      FirstMatchNone(lines[1..], name);
      if MatchField(lines[0], name) == None {
        forall i | 0 < i < |lines| ensures lines[i] == lines[1..][i - 1] {
        }
      }
    }
  }

  /** First match wins: a field takes the value of the topmost matching line. */
  lemma FirstMatchSpec(lines: seq<string>, name: string, v: string)
    ensures FirstMatch(lines, name) == Some(v)
            <==> exists i :: FirstMatchingLine(lines, name, i) && MatchField(lines[i], name) == Some(v)
  {
    if FirstMatch(lines, name) == Some(v) {
      FirstMatchFound(lines, name);
    }
    if i :| FirstMatchingLine(lines, name, i) && MatchField(lines[i], name) == Some(v) {
      FirstMatchIsFirst(lines, name, i);
    }
  }

  /** Lines after the first match are never consulted. */
  lemma LaterLinesIgnored(lines: seq<string>, more: seq<string>, name: string)
    requires FirstMatch(lines, name).Some?
    ensures FirstMatch(lines + more, name) == FirstMatch(lines, name)
  {
    FirstMatchFound(lines, name);
    var i :| FirstMatchingLine(lines, name, i) && MatchField(lines[i], name) == FirstMatch(lines, name);
    assert FirstMatchingLine(lines + more, name, i) by {
      forall j | 0 <= j <= i ensures (lines + more)[j] == lines[j] {
      }
    }
    FirstMatchIsFirst(lines + more, name, i);
  }

  /** The lines the parser scans: the stripped text split on line feeds. */
  function Lines(text: string): (r: seq<string>)
    ensures |r| >= 1 && Join(r, '\n') == Strip(text)
  {
    JoinSplit(Strip(text), '\n');
    Split(Strip(text), '\n')
  }

  /** The record the parser builds, as a function of the text. */
  function StructuredData(text: string): (r: Record)
    ensures forall f :: f in r <==> f in FieldNames
    ensures forall f :: f in r && r[f].Some? ==> IsStripped(r[f].value)
  {
    map f | f in FieldNames :: FirstMatch(Lines(text), f)
  }

  /** Fills the record in place: every field starts as `None`; then, field by
      field, the lines are scanned from the top and the first match is stored. */
  method ExtractStructuredData(text: string) returns (data: Record)
    ensures forall f :: f in data <==> f in FieldNames
    ensures forall f :: f in FieldNames ==> data[f] == FirstMatch(Lines(text), f)
    ensures data == StructuredData(text)
  {
    data := map[];
    for i := 0 to |FieldNames|
      invariant forall f :: f in data <==> f in FieldNames[..i]
      invariant forall f :: f in data ==> data[f] == None
    {
      assert FieldNames[..i + 1] == FieldNames[..i] + [FieldNames[i]];
      data := data[FieldNames[i] := None];
    }
    assert FieldNames[..|FieldNames|] == FieldNames;
    var lines := Split(Strip(text), '\n');
    for i := 0 to |FieldNames|
      invariant forall f :: f in data <==> f in FieldNames
      invariant forall f :: f in data ==> data[f] == if f in FieldNames[..i] then FirstMatch(lines, f) else None
    {
      var field := FieldNames[i];
      assert FieldNames[..i + 1] == FieldNames[..i] + [field];
      ghost var before := data;
      var k := 0;
      while k < |lines|
        invariant 0 <= k <= |lines|
        invariant FirstMatch(lines[k..], field) == FirstMatch(lines, field)
        invariant data == before
      {
        var m := MatchField(lines[k], field);
        if m.Some? {
          data := data[field := m];
          break;
        }
        assert lines[k..][1..] == lines[k + 1..];
        k := k + 1;
      }
    }
    assert FieldNames[..|FieldNames|] == FieldNames;
  }

  lemma FieldNamesStripped()
    ensures forall f :: f in FieldNames ==> IsStripped(f)
  {
  }

  /** What the parser stores for one field: `Some(v)` exactly when some line
      reads `field: v` (up to case and whitespace) and no line above it matches. */
  lemma ParsedField(text: string, field: string, v: string)
    requires field in FieldNames
    ensures StructuredData(text)[field] == Some(v)
            <==> exists i :: FirstMatchingLine(Lines(text), field, i)
                             && exists c :: LabelledAt(Lines(text)[i], c, field, v)
  {
    FieldNamesStripped();
    var lines := Lines(text);
    FirstMatchSpec(lines, field, v);
    if StructuredData(text)[field] == Some(v) {
      var i :| FirstMatchingLine(lines, field, i) && MatchField(lines[i], field) == Some(v);
      MatchFieldSpec(lines[i], field, v);
    }
    if i :| FirstMatchingLine(lines, field, i) && exists c :: LabelledAt(lines[i], c, field, v) {
      MatchFieldSpec(lines[i], field, v);
    }
  }

  /** A field no line matches stays `None`, distinct from a present but empty value. */
  lemma AbsentField(text: string, field: string)
    requires field in FieldNames
    ensures StructuredData(text)[field] == None
            <==> forall i :: 0 <= i < |Lines(text)| ==> MatchField(Lines(text)[i], field) == None
  {
    FirstMatchNone(Lines(text), field);
  }
}
