/**
  `CellConfigCreator.Start`: reads the configuration CSV (a header line, then
  one `name,type,state,mass` line per cell type), builds one configuration per
  non-empty data line, and hands the list to `CreateCellConfigEntity`.

  The string primitives the loop relies on are modelled here as well:
  `String.Split` on one separator character, `String.Trim` with the
  whitespace set of `char.IsWhiteSpace`. The framework's `Enum.TryParse` and
  `int.TryParse` are parameters.
 */
module CellConfigCreator {
  import opened Wrappers
  import opened GlobalConfig
  import CellUtility

  // ---------------------------------------------------------------------------
  // String.Split(char) and its inverse

  /** `s.Split(sep)`: the pieces between separators; never empty, and no piece holds `sep`. */
  function Split(s: string, sep: char): (r: seq<string>)
    ensures |r| >= 1
    ensures forall k | 0 <= k < |r| :: sep !in r[k]
  {
    if s == [] then [[]]
    else
      var rest := Split(s[1..], sep);
      if s[0] == sep then [[]] + rest else [[s[0]] + rest[0]] + rest[1..]
  }

  /** `string.Join(sep, parts)`. */
  function Join(parts: seq<string>, sep: char): string
    requires |parts| >= 1
  {
    if |parts| == 1 then parts[0] else parts[0] + [sep] + Join(parts[1..], sep)
  }

  /** Joining the pieces back together restores the text. */
  lemma {:induction false} JoinSplit(s: string, sep: char)
    ensures Join(Split(s, sep), sep) == s
  {
    if s != [] {
      var rest := Split(s[1..], sep);
      JoinSplit(s[1..], sep);
      if s[0] == sep {
        assert ([[]] + rest)[1..] == rest;
      } else {
        var parts := [[s[0]] + rest[0]] + rest[1..];
        if |rest| > 1 {
          assert parts[1..] == rest[1..];
          assert Join(rest, sep) == rest[0] + [sep] + Join(rest[1..], sep);
        }
      }
    }
  }

  /** Text that starts without a separator stays in the first piece. */
  lemma {:induction false} SplitPrefix(a: string, t: string, sep: char)
    requires sep !in a
    ensures Split(a + t, sep) == [a + Split(t, sep)[0]] + Split(t, sep)[1..]
  {
    if a != [] {
      SplitPrefix(a[1..], t, sep);
      assert (a + t)[1..] == a[1..] + t;
      var x := Split(t, sep);
      var rest := Split(a[1..] + t, sep);
      assert rest[0] == a[1..] + x[0] && rest[1..] == x[1..];
      assert [a[0]] + (a[1..] + x[0]) == a + x[0];
      assert (a + t)[0] == a[0] && a[0] != sep;
      assert Split(a + t, sep) == [[a[0]] + rest[0]] + rest[1..];
    } else {
      assert a + t == t;
      var x := Split(t, sep);
      assert [] + x[0] == x[0];
      assert x == [x[0]] + x[1..];
    }
  }

  /** A piece followed by a separator splits off as a line of its own. */
  lemma SplitLine(a: string, t: string, sep: char)
    requires sep !in a
    ensures Split(a + [sep] + t, sep) == [a] + Split(t, sep)
  {
    SplitPrefix(a, [sep] + t, sep);
    assert a + [sep] + t == a + ([sep] + t);
    assert ([sep] + t)[1..] == t;
    assert Split([sep] + t, sep) == [[]] + Split(t, sep);
    assert a + [] == a;
  }

  /** Splitting joined pieces that hold no separator gives the pieces back. */
  lemma {:induction false} SplitJoin(parts: seq<string>, sep: char)
    requires |parts| >= 1
    requires forall k | 0 <= k < |parts| :: sep !in parts[k]
    ensures Split(Join(parts, sep), sep) == parts
    decreases |parts|
  {
    if |parts| == 1 {
      SplitPrefix(parts[0], [], sep);
      assert parts[0] + [] == parts[0];
    } else {
      SplitJoin(parts[1..], sep);
      SplitLine(parts[0], Join(parts[1..], sep), sep);
      assert parts == [parts[0]] + parts[1..];
    }
  }

  // ---------------------------------------------------------------------------
  // String.Trim()

  /**
    `char.IsWhiteSpace`: U+0009 to U+000D, the space separators (U+0020,
    U+00A0, U+1680, U+2000 to U+200A, U+202F, U+205F, U+3000), U+0085, and the
    line and paragraph separators U+2028 and U+2029.
   */
  predicate IsWhiteSpace(c: char)
  {
    var n := c as int;
    (0x09 <= n <= 0x0D) || n == 0x20 || n == 0x85 || n == 0xA0 || n == 0x1680
    || (0x2000 <= n <= 0x200A) || n == 0x2028 || n == 0x2029 || n == 0x202F || n == 0x205F || n == 0x3000
  }

  predicate AllWhiteSpace(s: string)
  {
    forall i | 0 <= i < |s| :: IsWhiteSpace(s[i])
  }

  /** Neither end of `s` is whitespace. */
  predicate Trimmed(s: string)
  {
    s == [] || (!IsWhiteSpace(s[0]) && !IsWhiteSpace(s[|s| - 1]))
  }

  /** The length of the whitespace run at the front of `s`. */
  function LeadingWhiteSpace(s: string): (n: nat)
    ensures n <= |s| && AllWhiteSpace(s[..n])
    ensures n == |s| || !IsWhiteSpace(s[n])
  {
    if s == [] || !IsWhiteSpace(s[0]) then 0
    else
      var k := LeadingWhiteSpace(s[1..]);
      assert forall i | 1 <= i < 1 + k :: s[i] == s[1..][..k][i - 1];
      1 + k
  }

  /** The length of the whitespace run at the back of `s`. */
  function TrailingWhiteSpace(s: string): (n: nat)
    ensures n <= |s| && AllWhiteSpace(s[|s| - n..])
    ensures n == |s| || !IsWhiteSpace(s[|s| - n - 1])
  {
    if s == [] || !IsWhiteSpace(s[|s| - 1]) then 0
    else
      var k := TrailingWhiteSpace(s[..|s| - 1]);
      assert forall i | |s| - 1 - k <= i < |s| - 1 :: s[i] == s[..|s| - 1][|s| - 1 - k..][i - (|s| - 1 - k)];
      1 + k
  }

  /** `s.Trim()`: `s` without the whitespace at either end. */
  function Trim(s: string): (r: string)
    ensures Trimmed(r)
  {
    var a := LeadingWhiteSpace(s);
    var rest := s[a..];
    rest[..|rest| - TrailingWhiteSpace(rest)]
  }

  /** Whitespace in front of `t` is exactly what `LeadingWhiteSpace` counts. */
  lemma {:induction false} LeadingOf(p: string, t: string)
    requires AllWhiteSpace(p)
    requires t == [] || !IsWhiteSpace(t[0])
    ensures LeadingWhiteSpace(p + t) == |p|
  {
    if p != [] {
      assert (p + t)[1..] == p[1..] + t;
      LeadingOf(p[1..], t);
    }
  }

  /** Whitespace behind `t` is exactly what `TrailingWhiteSpace` counts. */
  lemma {:induction false} TrailingOf(t: string, q: string)
    requires AllWhiteSpace(q)
    requires t == [] || !IsWhiteSpace(t[|t| - 1])
    ensures TrailingWhiteSpace(t + q) == |q|
  {
    if q != [] {
      assert (t + q)[..|t + q| - 1] == t + q[..|q| - 1];
      TrailingOf(t, q[..|q| - 1]);
    }
  }

  /**
    `Trim` removes whitespace and nothing else: with only whitespace around
    a text that starts and ends with something else, the result is that text.
   */
  lemma TrimUnique(p: string, r: string, q: string)
    requires AllWhiteSpace(p) && AllWhiteSpace(q) && Trimmed(r)
    ensures Trim(p + r + q) == r
  {
    var s := p + r + q;
    if r == [] {
      assert s == (p + q) + [];
      LeadingOf(p + q, []);
      assert s[|s|..] == [];
    } else {
      assert s == p + (r + q);
      LeadingOf(p, r + q);
      assert s[|p|..] == r + q;
      TrailingOf(r, q);
      assert (r + q)[..|r|] == r;
    }
  }

  /** The text is the trimmed text with whitespace on either side. */
  lemma TrimSlice(s: string) returns (p: string, q: string)
    ensures AllWhiteSpace(p) && AllWhiteSpace(q)
    ensures s == p + Trim(s) + q
  {
    var a := LeadingWhiteSpace(s);
    var rest := s[a..];
    var b := |rest| - TrailingWhiteSpace(rest);
    p, q := s[..a], rest[b..];
    assert s == s[..a] + rest[..b] + rest[b..];
  }

  /** Trimming twice trims nothing more. */
  lemma TrimIdempotent(s: string)
    ensures Trim(Trim(s)) == Trim(s)
  {
    TrimUnique([], Trim(s), []);
    assert [] + Trim(s) + [] == Trim(s);
  }

  /** A Windows line ending (`\r` before the `\n` the split removed) is trimmed away. */
  lemma TrimDropsCarriageReturn(s: string)
    ensures Trim(s + ['\r']) == Trim(s)
  {
    var p, q := TrimSlice(s);
    assert s + ['\r'] == p + Trim(s) + (q + ['\r']);
    TrimUnique(p, Trim(s), q + ['\r']);
  }

  // ---------------------------------------------------------------------------
  // The parsing loop

  /**
    The framework parsers: `Enum.TryParse` for the two enumerations and
    `int.TryParse`, each `None` where the call returns `false`.
   */
  datatype FieldParsers = FieldParsers(
    parseType: string -> Option<CellType>,
    parseState: string -> Option<CellState>,
    parseInt: string -> Option<int>)

  /**
    The configuration built from the fields of one line: type from field 1
    (`None` if it does not parse), state from field 2 (`None` likewise), mass
    from field 3 (1 likewise); field 0, the name, is not read, and every other
    field keeps its zero value.
   */
  function LineConfig(values: seq<string>, ps: FieldParsers): CellConfig
    requires |values| >= 4
  {
    var cellType := match ps.parseType(values[1]) case Some(t) => t case None => NoneType;
    var state := match ps.parseState(values[2]) case Some(s) => s case None => NoneState;
    var mass := match ps.parseInt(values[3]) case Some(n) => n case None => 1;
    DefaultConfig.(cellType := cellType, state := state, mass := mass)
  }

  /**
    The outcome of the loop over `lines`: the configurations collected, or the
    index of the line whose field access ran past the end of its fields.
   */
  datatype LinesResult = Parsed(configs: seq<CellConfig>) | IndexOutOfRange(line: nat)

  /** One pass of the loop body: line `i`, after the configurations `configs`. */
  function AddLine(configs: seq<CellConfig>, i: nat, line: string, ps: FieldParsers): LinesResult
  {
    var trimmed := Trim(line);
    if trimmed == [] then Parsed(configs)
    else
      var values := Split(trimmed, ',');
      if |values| < 4 then IndexOutOfRange(i) else Parsed(configs + [LineConfig(values, ps)])
  }

  /** The loop of `Start` over `lines`, the first of which is the header. */
  function ParseLines(lines: seq<string>, ps: FieldParsers): LinesResult
  {
    if |lines| <= 1 then Parsed([])
    else
      var i := |lines| - 1;
      match ParseLines(lines[..i], ps)
      case IndexOutOfRange(j) => IndexOutOfRange(j)
      case Parsed(configs) => AddLine(configs, i, lines[i], ps)
  }

  /** The loop after line `i`: the body applied to the outcome of the lines before it. */
  lemma ParseStep(lines: seq<string>, i: nat, ps: FieldParsers)
    requires 1 <= i < |lines|
    ensures ParseLines(lines[..i + 1], ps)
         == if ParseLines(lines[..i], ps).Parsed? then AddLine(ParseLines(lines[..i], ps).configs, i, lines[i], ps)
            else ParseLines(lines[..i], ps)
  {
    assert lines[..i + 1][..i] == lines[..i];
  }

  /** What `Start` leaves behind. */
  datatype Outcome =
    | AssetMissing                      // the error is logged and no entity is created
    | Thrown(line: nat)                 // the line with too few fields throws out of `Start`
    | Created(buffer: seq<CellConfig>)  // the configuration entity holds `buffer`

  /** `Start` on the CSV text (`None` when no asset is assigned). */
  function ConfigsFromCsv(csv: Option<string>, ps: FieldParsers): Outcome
  {
    match csv
    case None => AssetMissing
    case Some(text) =>
      match ParseLines(Split(text, '\n'), ps)
      case IndexOutOfRange(i) => Thrown(i)
      case Parsed(configs) => Created(configs)
  }

  /** Once a line has thrown, later lines change nothing. */
  lemma {:induction false} ThrowPersists(lines: seq<string>, n: nat, ps: FieldParsers)
    requires n <= |lines|
    requires ParseLines(lines[..n], ps).IndexOutOfRange?
    ensures ParseLines(lines, ps) == ParseLines(lines[..n], ps)
    decreases |lines| - n
  {
    if n < |lines| {
      assert lines[..n + 1][..n] == lines[..n];
      ThrowPersists(lines, n + 1, ps);
    } else {
      assert lines[..n] == lines;
    }
  }

  /**
    `Start`: nothing without an asset; otherwise split the text into lines,
    skip the header, trim each line, skip empty lines, and build one
    configuration per remaining line, in order, before filling the
    configuration buffer.
   */
  method Start(csv: Option<string>, ps: FieldParsers) returns (outcome: Outcome)
    ensures outcome == ConfigsFromCsv(csv, ps)
  {
    if csv.None? {
      return AssetMissing;
    }
    var configs: seq<CellConfig> := [];
    var lines := Split(csv.value, '\n');
    for i := 1 to |lines|
      invariant ParseLines(lines[..i], ps) == Parsed(configs)
    {
      ParseStep(lines, i, ps);
      var line := Trim(lines[i]);
      if line == [] {
        continue;
      }
      var values := Split(line, ',');
      if |values| < 4 {
        ThrowPersists(lines, i + 1, ps);
        return Thrown(i);
      }
      configs := configs + [LineConfig(values, ps)];
    }
    assert lines[..|lines|] == lines;
    var buffer := CellUtility.CreateCellConfigEntity(configs);
    return Created(buffer);
  }

  // ---------------------------------------------------------------------------
  // What the loop promises

  /** The data lines that are not empty once trimmed, trimmed, in file order. */
  function DataLines(lines: seq<string>): (d: seq<string>)
    ensures forall k | 0 <= k < |d| :: d[k] != [] && Trimmed(d[k])
  {
    if |lines| <= 1 then []
    else
      var i := |lines| - 1;
      DataLines(lines[..i]) + DataLine(lines[i])
  }

  /** One line, trimmed, unless that leaves nothing. */
  function DataLine(line: string): seq<string>
  {
    if Trim(line) == [] then [] else [Trim(line)]
  }

  /** Every data line holds at least the four fields the loop reads. */
  predicate WellFormed(d: seq<string>)
  {
    forall k | 0 <= k < |d| :: |Split(d[k], ',')| >= 4
  }

  /** `configs` holds, in order, the configuration of each line of `d`. */
  predicate ConfigsOf(configs: seq<CellConfig>, d: seq<string>, ps: FieldParsers)
  {
    |configs| == |d| &&
    forall k | 0 <= k < |d| :: |Split(d[k], ',')| >= 4 && configs[k] == LineConfig(Split(d[k], ','), ps)
  }

  /** The loop completes exactly when every non-empty data line has the four fields it reads. */
  lemma {:induction false} ParsedIffWellFormed(lines: seq<string>, ps: FieldParsers)
    ensures ParseLines(lines, ps).Parsed? <==> WellFormed(DataLines(lines))
    decreases |lines|
  {
    if |lines| > 1 {
      var i := |lines| - 1;
      ParsedIffWellFormed(lines[..i], ps);
      var d := DataLines(lines[..i]);
      var prev := ParseLines(lines[..i], ps);
      assert ParseLines(lines, ps) == if prev.Parsed? then AddLine(prev.configs, i, lines[i], ps) else prev;
      assert DataLines(lines) == d + DataLine(lines[i]);
      if !WellFormed(d) {
        var k :| 0 <= k < |d| && |Split(d[k], ',')| < 4;
        assert DataLines(lines)[k] == d[k];
      } else if Trim(lines[i]) != [] && |Split(Trim(lines[i]), ',')| < 4 {
        assert DataLines(lines)[|d|] == Trim(lines[i]);
      }
    }
  }

  /** One more configuration for one more line. */
  lemma ConfigsOfAppend(configs: seq<CellConfig>, d: seq<string>, line: string, ps: FieldParsers)
    requires ConfigsOf(configs, d, ps) && |Split(line, ',')| >= 4
    ensures ConfigsOf(configs + [LineConfig(Split(line, ','), ps)], d + [line], ps)
  {
    var configs', d' := configs + [LineConfig(Split(line, ','), ps)], d + [line];
    forall k | 0 <= k < |d'| ensures |Split(d'[k], ',')| >= 4 && configs'[k] == LineConfig(Split(d'[k], ','), ps) {
      if k < |d| {
        assert d'[k] == d[k] && configs'[k] == configs[k];
      }
    }
  }

  /**
    When the loop completes it has built one configuration per non-empty data
    line, in file order, each from that line's fields.
   */
  lemma {:induction false} OneConfigPerDataLine(lines: seq<string>, ps: FieldParsers)
    requires ParseLines(lines, ps).Parsed?
    ensures ConfigsOf(ParseLines(lines, ps).configs, DataLines(lines), ps)
    decreases |lines|
  {
    if |lines| > 1 {
      var i := |lines| - 1;
      var prev := ParseLines(lines[..i], ps);
      assert prev.Parsed?;
      OneConfigPerDataLine(lines[..i], ps);
      var d := DataLines(lines[..i]);
      assert DataLines(lines) == d + DataLine(lines[i]);
      var line := Trim(lines[i]);
      if line != [] {
        ConfigsOfAppend(prev.configs, d, line, ps);
      }
    }
  }

  /**
    When the loop throws, it throws at the first non-empty data line with
    fewer than four fields, and every line before it parsed.
   */
  lemma {:induction false} ThrowsAtFirstShortLine(lines: seq<string>, ps: FieldParsers)
    requires ParseLines(lines, ps).IndexOutOfRange?
    ensures var i := ParseLines(lines, ps).line;
      1 <= i < |lines| && Trim(lines[i]) != [] && |Split(Trim(lines[i]), ',')| < 4
      && ParseLines(lines[..i], ps).Parsed?
    decreases |lines|
  {
    var i := |lines| - 1;
    var prev := ParseLines(lines[..i], ps);
    if prev.IndexOutOfRange? {
      assert ParseLines(lines, ps) == prev;
      ThrowsAtFirstShortLine(lines[..i], ps);
      var j := prev.line;
      assert lines[..i][j] == lines[j];
      assert lines[..i][..j] == lines[..j];
    } else {
      assert ParseLines(lines, ps) == AddLine(prev.configs, i, lines[i], ps);
    }
  }

  /** Replacing lines 1 onwards by the same lines leaves the result alone, whatever line 0 holds. */
  lemma {:induction false} HeaderNotRead(lines: seq<string>, other: seq<string>, ps: FieldParsers)
    requires |lines| == |other| >= 1 && lines[1..] == other[1..]
    ensures ParseLines(lines, ps) == ParseLines(other, ps)
    decreases |lines|
  {
    if |lines| > 1 {
      var i := |lines| - 1;
      assert lines[i] == lines[1..][i - 1] == other[i];
      assert lines[..i][1..] == lines[1..][..i - 1] == other[..i][1..];
      HeaderNotRead(lines[..i], other[..i], ps);
    }
  }

  /** The header line never reaches a configuration: any two headers give the same outcome. */
  lemma HeaderIgnored(header: string, other: string, body: string, ps: FieldParsers)
    requires '\n' !in header && '\n' !in other
    ensures ConfigsFromCsv(Some(header + ['\n'] + body), ps) == ConfigsFromCsv(Some(other + ['\n'] + body), ps)
  {
    SplitLine(header, body, '\n');
    SplitLine(other, body, '\n');
    HeaderNotRead([header] + Split(body, '\n'), [other] + Split(body, '\n'), ps);
  }
}
