/** How wide the lines of a hex value get (regHexLines, vfs/registry_reg_export.go). */
module RegWidth {
  import opened Base
  import opened RegFormat
  import Utf8
  import X = RegExport
  import I = RegImport
  import R = RegRoundTrip

  lemma {:induction false} ReplaceNone(line: string)
    requires '\n' !in line
    ensures I.ReplaceCrLf(line) == line
    decreases |line|
  {
    if line != "" {
      ReplaceNone(line[1..]);
      assert line == [line[0]] + line[1..];
    }
  }

  lemma OneLine(line: string)
    requires '\n' !in line
    ensures I.PhysicalLines(line) == [line]
  {
    ReplaceNone(line);
    SplitFree(line, '\n');
  }

  /** No line but the first is over the limit, and the first one only by what it starts with. */
  predicate AreNarrow(lines: seq<string>, first: nat) {
    lines != [] && (|lines[0]| <= LINE_WIDTH || |lines[0]| <= first)
    && forall k :: 1 <= k < |lines| ==> |lines[k]| <= LINE_WIDTH
  }

  lemma {:induction false} HexFits(line: string, data: seq<Byte>, i: nat, width: nat)
    requires i > 0 && '\n' !in line && |line| <= width
    ensures AreNarrow(I.PhysicalLines(line + X.HexFrom(data, i, width)), width + 1)
    decreases |data| - i
  {
    if i >= |data| {
      assert line + "" == line;
      OneLine(line);
    } else {
      var pair := X.HexPair(data, i);
      var next := X.NextWidth(data, i, width);
      var rest := X.HexFrom(data, i + 1, next);
      R.HexPairText(data, i);
      if X.Wraps(data, i, width) {
        HexFits("  " + pair, data, i + 1, next);
        WrappedFits(line, pair, rest, width, next + 1);
      } else {
        assert "" + pair == pair;
        Assoc(line, pair, rest);
        HexFits(line + pair, data, i + 1, next);
      }
    }
  }

  /** A line that is wrapped, given how wide the lines behind it are. */
  lemma WrappedFits(line: string, pair: string, rest: string, width: nat, next: nat)
    requires '\n' !in line && |line| <= width && next <= LINE_WIDTH
    requires AreNarrow(I.PhysicalLines(("  " + pair) + rest), next)
    ensures AreNarrow(I.PhysicalLines(line + ((X.WRAP + pair) + rest)), width + 1)
  {
    R.WrapText(line, pair, rest);
    R.WholeLine(line + "\\", "  " + (pair + rest));
    Assoc("  ", pair, rest);
  }

  lemma {:induction false} NotLonger(s: string)
    ensures |s| <= |Utf8.Encode(s)|
  {
    if s != "" {
      NotLonger(s[1..]);
    }
  }

  /** A wrapped hex value stays within 80 columns; only a first line that the name alone makes that long, together with
      one byte that is never wrapped off and the wrapping backslash, is longer. */
  lemma {:induction false} HexLinesFit(prefix: string, data: seq<Byte>)
    requires '\n' !in prefix
    ensures AreNarrow(I.PhysicalLines(X.HexLines(prefix, data)), |Utf8.Encode(prefix)| + 4)
  {
    NotLonger(prefix);
    if data == [] {
      assert prefix + "" == prefix;
      OneLine(prefix);
    } else {
      var pair := X.HexPair(data, 0);
      var width := |Utf8.Encode(prefix)| + |pair|;
      R.HexPairText(data, 0);
      assert "" + pair == pair;
      Assoc(prefix, pair, X.HexFrom(data, 1, width));
      HexFits(prefix + pair, data, 1, width);
    }
  }

  // ----- no line is wrapped too soon

  /** The byte a line is wrapped before would have made it 80 wide; extra is what the first line counts wider than it
      is. A last byte has two characters, every other one a comma behind them. */
  predicate AreFilled(lines: seq<string>, extra: int) {
    forall k :: 0 <= k < |lines| - 1 ==>
      |lines[k]| - 1 + (if k == 0 then extra else 0) + (if |lines[k + 1]| == 4 then 2 else 3) >= 80
  }

  /** The lines of a text that starts with line, and that is no longer only if nothing follows it. */
  predicate StartWith(lines: seq<string>, line: string, ends: bool) {
    lines != [] && line <= lines[0] && (ends ==> lines == [line])
  }

  lemma {:induction false} HexFilled(line: string, data: seq<Byte>, i: nat, width: nat, extra: int)
    requires i > 0 && '\n' !in line && width == |line| + extra
    ensures var lines := I.PhysicalLines(line + X.HexFrom(data, i, width));
            StartWith(lines, line, i >= |data|) && AreFilled(lines, extra)
    decreases |data| - i
  {
    hide I.PhysicalLines, AreFilled;
    if i >= |data| {
      assert line + "" == line;
      OneLine(line);
      OneFilled(line, extra);
    } else {
      var pair := X.HexPair(data, i);
      var next := X.NextWidth(data, i, width);
      var rest := X.HexFrom(data, i + 1, next);
      R.HexPairText(data, i);
      if X.Wraps(data, i, width) {
        HexFilled("  " + pair, data, i + 1, next, 0);
        var behind := I.PhysicalLines(("  " + pair) + rest);
        R.WrapText(line, pair, rest);
        R.WholeLine(line + "\\", "  " + (pair + rest));
        Assoc("  ", pair, rest);
        WrappedFilled(line + "\\", behind, extra, pair);
      } else {
        assert "" + pair == pair;
        Assoc(line, pair, rest);
        HexFilled(line + pair, data, i + 1, next, extra);
      }
    }
  }

  lemma OneFilled(line: string, extra: int)
    ensures AreFilled([line], extra)
  {
  }

  lemma WrappedFilled(line: string, behind: seq<string>, extra: int, pair: string)
    requires |line| - 1 + extra + |pair| >= 80 && 2 <= |pair| <= 3
    requires StartWith(behind, "  " + pair, |pair| == 2) && AreFilled(behind, 0)
    ensures AreFilled([line] + behind, extra)
  {
    var lines := [line] + behind;
    forall k | 0 <= k < |lines| - 1
      ensures |lines[k]| - 1 + (if k == 0 then extra else 0) + (if |lines[k + 1]| == 4 then 2 else 3) >= 80
    {
      if k > 0 {
        assert lines[k] == behind[k - 1] && lines[k + 1] == behind[k];
      }
    }
  }

  /** A hex value is wrapped only before a byte that would not fit, and never before its first. */
  lemma {:induction false} HexLinesFilled(prefix: string, data: seq<Byte>)
    requires '\n' !in prefix && data != []
    ensures var lines := I.PhysicalLines(X.HexLines(prefix, data));
            && AreFilled(lines, |Utf8.Encode(prefix)| - |prefix|)
            && lines != [] && |lines[0]| >= |prefix| + 2 && lines[0][..|prefix| + 2] == prefix + HexPadded(data[0], 2)
  {
    hide I.PhysicalLines, AreFilled;
    NotLonger(prefix);
    var extra := |Utf8.Encode(prefix)| - |prefix|;
    var pair := X.HexPair(data, 0);
    R.HexPairText(data, 0);
    assert "" + pair == pair;
    Assoc(prefix, pair, X.HexFrom(data, 1, |Utf8.Encode(prefix)| + |pair|));
    HexFilled(prefix + pair, data, 1, |prefix + pair| + extra, extra);
  }
}
