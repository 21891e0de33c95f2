/** The target list: one `hostname,address` pair per line of a text file.
    Lines that are blank once stripped, or that hold no comma, are skipped;
    the first comma separates the hostname from the address, and any later
    commas stay in the address. */
module Targets {

  datatype Option<T> = None | Some(value: T)

  /** One monitored host: the label shown on the dashboard and the address probed. */
  datatype Target = Target(hostname: string, ip: string)

  /** The characters Python's `str.isspace` accepts, which is what `str.strip()` removes. */
  predicate IsSpace(c: char) {
    || c == ' '
    || '\t' <= c <= '\r'
    || '\U{1C}' <= c <= '\U{1F}'
    || c == '\U{85}'
    || c == '\U{A0}'
    || c == '\U{1680}'
    || '\U{2000}' <= c <= '\U{200A}'
    || c == '\U{2028}'
    || c == '\U{2029}'
    || c == '\U{202F}'
    || c == '\U{205F}'
    || c == '\U{3000}'
  }

  /** No leading and no trailing whitespace. */
  predicate Trimmed(s: string) {
    s == [] || (!IsSpace(s[0]) && !IsSpace(s[|s| - 1]))
  }

  /** `s.lstrip()`: the suffix left after dropping the leading whitespace. */
  function StripLeft(s: string): (r: string)
    ensures |r| <= |s| && r == s[|s| - |r|..]
    ensures forall i :: 0 <= i < |s| - |r| ==> IsSpace(s[i])
    ensures r == [] || !IsSpace(r[0])
  {
    if s != [] && IsSpace(s[0]) then StripLeft(s[1..]) else s
  }

  /** `s.rstrip()`: the prefix left after dropping the trailing whitespace. */
  function StripRight(s: string): (r: string)
    ensures |r| <= |s| && r == s[..|r|]
    ensures forall i :: |r| <= i < |s| ==> IsSpace(s[i])
    ensures r == [] || !IsSpace(r[|r| - 1])
  {
    if s != [] && IsSpace(s[|s| - 1]) then StripRight(s[..|s| - 1]) else s
  }

  /** `s.strip()`: drops whitespace at both ends, and only there. */
  function Strip(s: string): (r: string)
    ensures Trimmed(r)
    ensures r == [] <==> forall i :: 0 <= i < |s| ==> IsSpace(s[i])
    ensures exists a, b :: 0 <= a <= b <= |s| && r == s[a..b] &&
              (forall i :: 0 <= i < a ==> IsSpace(s[i])) && (forall i :: b <= i < |s| ==> IsSpace(s[i]))
  {
    var l := StripLeft(s);
    var r := StripRight(l);
    StripIsSlice(s);
    if r == [] then
      assert l == [];
      r
    else
      assert r[0] == l[0];
      r
  }

  /** Stripping both ends keeps the slice of `s` between the leading and the trailing
      whitespace. */
  lemma StripIsSlice(s: string)
    ensures exists a, b :: 0 <= a <= b <= |s| && StripRight(StripLeft(s)) == s[a..b] &&
              (forall i :: 0 <= i < a ==> IsSpace(s[i])) && (forall i :: b <= i < |s| ==> IsSpace(s[i]))
  {
    var l := StripLeft(s);
    var a := |s| - |l|;
    var b := StripRightOfSuffix(s, l, a);
  }

  /** `rstrip` of the suffix `s[a..]` is a slice `s[a..b]`, and only whitespace follows it. */
  lemma StripRightOfSuffix(s: string, l: string, a: nat) returns (b: nat)
    requires a <= |s| && l == s[a..]
    ensures a <= b <= |s| && StripRight(l) == s[a..b]
    ensures forall i :: b <= i < |s| ==> IsSpace(s[i])
  {
    var r := StripRight(l);
    b := a + |r|;
    assert r == l[..|r|];
    forall i | b <= i < |s| ensures IsSpace(s[i]) {
      assert s[i] == l[i - a];
    }
  }

  /** The number of commas in `s`. */
  function Commas(s: string): nat {
    if s == [] then 0 else Commas(s[..|s| - 1]) + (if s[|s| - 1] == ',' then 1 else 0)
  }

  lemma {:induction false} CommasConcat(a: string, b: string)
    ensures Commas(a + b) == Commas(a) + Commas(b)
    decreases |b|
  {
    if b == [] {
      assert a + b == a;
    } else {
      var n := |b| - 1;
      assert (a + b)[..|a + b| - 1] == a + b[..n];
      CommasConcat(a, b[..n]);
    }
  }

  lemma {:induction false} CommasPositive(s: string)
    ensures Commas(s) > 0 <==> ',' in s
    decreases |s|
  {
    if s != [] {
      var n := |s| - 1;
      CommasPositive(s[..n]);
      assert s == s[..n] + [s[n]];
    }
  }

  lemma {:induction false} CommasOfSpaces(s: string)
    requires forall i :: 0 <= i < |s| ==> IsSpace(s[i])
    ensures Commas(s) == 0
    decreases |s|
  {
    if s != [] {
      CommasOfSpaces(s[..|s| - 1]);
    }
  }

  lemma StripLeftKeepsCommas(s: string)
    ensures Commas(StripLeft(s)) == Commas(s)
  {
    var l := StripLeft(s);
    var lead := s[..|s| - |l|];
    assert s == lead + l;
    CommasConcat(lead, l);
    CommasOfSpaces(lead);
  }

  lemma StripRightKeepsCommas(s: string)
    ensures Commas(StripRight(s)) == Commas(s)
  {
    var r := StripRight(s);
    var trail := s[|r|..];
    assert s == r + trail;
    CommasConcat(r, trail);
    assert forall i :: 0 <= i < |trail| ==> trail[i] == s[|r| + i];
    CommasOfSpaces(trail);
  }

  /** Stripping removes whitespace only, so it never removes a comma. */
  lemma StripKeepsCommas(s: string)
    ensures Commas(Strip(s)) == Commas(s)
  {
    StripLeftKeepsCommas(s);
    StripRightKeepsCommas(StripLeft(s));
  }

  /** The index of the first comma of `s`. */
  function FirstComma(s: string): (i: nat)
    requires ',' in s
    ensures i < |s| && s[i] == ',' && ',' !in s[..i]
  {
    if s[0] == ',' then 0
    else
      var j := FirstComma(s[1..]);
      assert s[..j + 1] == [s[0]] + s[1..][..j];
      j + 1
  }

  /** `s.split(",", 1)` on a string holding a comma: the text before the first comma and the rest. */
  function SplitFirstComma(s: string): (parts: (string, string))
    requires ',' in s
    ensures s == parts.0 + "," + parts.1
    ensures ',' !in parts.0
  {
    var i := FirstComma(s);
    assert s == s[..i] + "," + s[i + 1..];
    (s[..i], s[i + 1..])
  }

  /** A decomposition around a comma that has no comma before it is the one `SplitFirstComma` finds. */
  lemma SplitFirstCommaUnique(s: string, a: string, b: string)
    requires s == a + "," + b && ',' !in a
    ensures SplitFirstComma(s) == (a, b)
  {
    var i := FirstComma(s);
    assert s[|a|] == ',';
    assert i == |a|;
    assert s[..i] == a;
    assert s[i + 1..] == b;
  }

  /** The target one line of the file yields, if any. */
  function ParseLine(line: string): (r: Option<Target>)
    ensures r.None? <==> ',' !in line || forall i :: 0 <= i < |line| ==> IsSpace(line[i])
    ensures r.Some? ==> Trimmed(r.value.hostname) && Trimmed(r.value.ip)
  {
    var s := Strip(line);
    if s != [] && ',' in line then
      assert ',' in s by {
        StripKeepsCommas(line);
        CommasPositive(line);
        CommasPositive(s);
      }
      var parts := SplitFirstComma(s);
      Some(Target(Strip(parts.0), Strip(parts.1)))
    else
      None
  }

  /** A line is skipped exactly when it is blank after stripping or holds no comma; otherwise
      its hostname is trimmed and comma-free and its address keeps every comma after the first. */
  lemma ParseLineShape(line: string)
    ensures ParseLine(line).None? <==> Strip(line) == [] || ',' !in line
    ensures ParseLine(line).Some? ==>
              var t := ParseLine(line).value;
              && Trimmed(t.hostname) && Trimmed(t.ip)
              && ',' !in t.hostname
              && Commas(t.ip) == Commas(line) - 1
  {
    var s := Strip(line);
    if ParseLine(line).Some? {
      var parts := SplitFirstComma(s);
      var t := ParseLine(line).value;
      StripKeepsCommas(line);
      StripKeepsCommas(parts.0);
      StripKeepsCommas(parts.1);
      CommasConcat(parts.0 + ",", parts.1);
      CommasConcat(parts.0, ",");
      assert Commas(",") == 1 by {
        assert (","[..0]) == [];
      }
      CommasPositive(parts.0);
      CommasPositive(t.hostname);
    }
  }

  /** Whatever precedes the first comma of the stripped line, stripped, is the hostname; all
      that follows it, stripped, is the address. */
  lemma ParseLineFields(line: string, before: string, after: string)
    requires Strip(line) == before + "," + after && ',' !in before
    ensures ParseLine(line) == Some(Target(Strip(before), Strip(after)))
  {
    var s := Strip(line);
    assert ',' in s by {
      assert s[|before|] == ',';
    }
    assert ',' in line by {
      StripKeepsCommas(line);
      CommasPositive(line);
      CommasPositive(s);
    }
    SplitFirstCommaUnique(s, before, after);
  }

  /** The targets of a whole file, in file order. */
  function ParseTargets(lines: seq<string>): (targets: seq<Target>)
    ensures |targets| <= |lines|
    decreases |lines|
  {
    if lines == [] then []
    else
      var n := |lines| - 1;
      ParseTargets(lines[..n]) + (match ParseLine(lines[n]) case Some(t) => [t] case None => [])
  }

  /** Parsing two pieces of a file and joining the results is parsing the whole file: the
      targets come out in file order. */
  lemma {:induction false} ParseTargetsConcat(a: seq<string>, b: seq<string>)
    ensures ParseTargets(a + b) == ParseTargets(a) + ParseTargets(b)
    decreases |b|
  {
    if b == [] {
      assert a + b == a;
    } else {
      var n := |b| - 1;
      assert (a + b)[..|a + b| - 1] == a + b[..n];
      ParseTargetsConcat(a, b[..n]);
    }
  }

  /** Every target of a file comes from one of its lines, parsed on its own. */
  lemma {:induction false} ParseTargetsFromLines(lines: seq<string>, t: Target)
    requires t in ParseTargets(lines)
    ensures exists i :: 0 <= i < |lines| && ParseLine(lines[i]) == Some(t)
    decreases |lines|
  {
    var n := |lines| - 1;
    if t in ParseTargets(lines[..n]) {
      ParseTargetsFromLines(lines[..n], t);
      var i :| 0 <= i < n && ParseLine(lines[..n][i]) == Some(t);
      assert lines[i] == lines[..n][i];
    } else {
      assert ParseLine(lines[n]) == Some(t);
    }
  }

  /** Reads the lines of the target file into the list of targets. */
  method LoadTargets(lines: seq<string>) returns (targets: seq<Target>)
    ensures targets == ParseTargets(lines)
  {
    targets := [];
    for i := 0 to |lines|
      invariant targets == ParseTargets(lines[..i])
    {
      assert lines[..i + 1][..i] == lines[..i];
      match ParseLine(lines[i]) {
        case Some(t) => targets := targets + [t];
        case None =>
      }
    }
    assert lines[..|lines|] == lines;
  }
}
