/** Exactly which lines decodeRegFile (vfs/registry_reg_import.go) takes as a file and as which keys, and where it
    refuses all others. */
module RegReading {
  import opened Base
  import opened RegFormat
  import opened RegGrammar
  import I = RegImport

  // ----- a line

  /** What a line makes of the keys so far: a blank line or a comment nothing, a section a further key to set or to
      remove, and anything else a further value of the last key, unless that is removed. */
  ghost predicate Means(keys: seq<I.ImportKey>, text: string, after: seq<I.ImportKey>) {
    exists m :: IsAround(text, m) && MeansTrimmed(keys, m, after)
  }

  ghost predicate MeansTrimmed(keys: seq<I.ImportKey>, m: string, after: seq<I.ImportKey>) {
    if m == "" || m[0] == ';' then after == keys
    else if m[0] == '[' then IsSection(keys, m, after)
    else
      && keys != [] && !keys[|keys| - 1].delete
      && exists v :: IsValueLine(m, v) && after == WithValue(keys, v)
  }

  predicate IsSection(keys: seq<I.ImportKey>, m: string, after: seq<I.ImportKey>)
    requires m != ""
  {
    && m[|m| - 1] == ']' && |m| > 2
    && var path := m[1..|m| - 1];
    if path[0] == '-' then path != "-" && after == keys + [I.ImportKey(path[1..], true, [])]
    else after == keys + [I.ImportKey(path, false, [])]
  }

  function WithValue(keys: seq<I.ImportKey>, v: I.ImportValue): seq<I.ImportKey>
    requires keys != []
  {
    var last := keys[|keys| - 1];
    keys[..|keys| - 1] + [last.(values := last.values + [v])]
  }

  lemma SectionExactly(keys: seq<I.ImportKey>, line: I.Line, after: seq<I.ImportKey>)
    requires var m := TrimSpace(line.text); m != "" && m[0] == '['
    ensures I.AddLine(keys, line) == Ok(after) <==> IsSection(keys, TrimSpace(line.text), after)
  {
    hide TrimSpace;
    var m := TrimSpace(line.text);
    assert m[|m| - 1..] == [m[|m| - 1]];
  }

  lemma TrimmedLineExactly(keys: seq<I.ImportKey>, line: I.Line, after: seq<I.ImportKey>)
    ensures I.AddLine(keys, line) == Ok(after) <==> MeansTrimmed(keys, TrimSpace(line.text), after)
  {
    hide TrimSpace, I.ValueLine, IsValueLine, IsSection;
    var m := TrimSpace(line.text);
    if m != "" && m[0] == '[' {
      SectionExactly(keys, line, after);
    } else if m != "" && m[0] != ';' && keys != [] {
      var last := keys[|keys| - 1];
      if I.ValueLine(m).Ok? {
        var v := I.ValueLine(m).value;
        ValueLineExactly(m, v);
        assert keys[|keys| - 1 := last.(values := last.values + [v])] == WithValue(keys, v);
      }
      if MeansTrimmed(keys, m, after) {
        var v :| IsValueLine(m, v) && after == WithValue(keys, v);
        ValueLineExactly(m, v);
      }
    }
  }

  /** A line is taken exactly when it means something, and as that. */
  lemma LineExactly(keys: seq<I.ImportKey>, line: I.Line, after: seq<I.ImportKey>)
    ensures I.AddLine(keys, line) == Ok(after) <==> Means(keys, line.text, after)
  {
    hide TrimSpace, I.AddLine, MeansTrimmed, IsAround;
    var m := TrimSpace(line.text);
    TrimmedExactly(line.text, m);
    TrimmedLineExactly(keys, line, after);
    if Means(keys, line.text, after) {
      var n :| IsAround(line.text, n) && MeansTrimmed(keys, n, after);
      TrimmedExactly(line.text, n);
    }
  }

  // ----- a file

  ghost predicate Reads(keys: seq<I.ImportKey>, lines: seq<I.Line>, after: seq<I.ImportKey>)
    decreases |lines|
  {
    if lines == [] then after == keys
    else exists next :: Means(keys, lines[0].text, next) && Reads(next, lines[1..], after)
  }

  lemma {:induction false} LinesExactly(keys: seq<I.ImportKey>, lines: seq<I.Line>, after: seq<I.ImportKey>)
    ensures I.AddLines(keys, lines) == Ok(after) <==> Reads(keys, lines, after)
    decreases |lines|
  {
    hide I.AddLine, Means;
    if lines != [] {
      if I.AddLine(keys, lines[0]).Ok? {
        var next := I.AddLine(keys, lines[0]).value;
        LineExactly(keys, lines[0], next);
        LinesExactly(next, lines[1..], after);
      }
      if Reads(keys, lines, after) {
        var next :| Means(keys, lines[0].text, next) && Reads(next, lines[1..], after);
        LineExactly(keys, lines[0], next);
        LinesExactly(next, lines[1..], after);
      }
    }
  }

  /** The first line that is not blank is the header, and what follows it is read. */
  ghost predicate IsFile(lines: seq<I.Line>, keys: seq<I.ImportKey>) {
    exists k :: 0 <= k < |lines| && IsHeader(lines, k) && Reads([], lines[k + 1..], keys)
  }

  ghost predicate IsHeader(lines: seq<I.Line>, k: nat)
    requires k < |lines|
  {
    && (forall i :: 0 <= i < k ==> AreSpaces(lines[i].text))
    && IsAround(lines[k].text, "Windows Registry Editor Version 5.00")
  }

  lemma BlankExactly(s: string)
    ensures TrimSpace(s) == "" <==> AreSpaces(s)
  {
    hide TrimSpace, IsSpace;
    TrimmedExactly(s, "");
    if AreSpaces(s) {
      assert s == s + "" + "" && AreSpaces("");
    }
    if IsAround(s, "") {
      var a, b :| AreSpaces(a) && AreSpaces(b) && s == a + "" + b;
      assert s == a + b;
    }
  }

  lemma {:induction false} KeptFrom(lines: seq<I.Line>, k: nat)
    requires k <= |lines| && forall i :: 0 <= i < k ==> AreSpaces(lines[i].text)
    requires k < |lines| ==> !AreSpaces(lines[k].text)
    ensures I.SkipBlank(lines) == lines[k..]
    decreases k
  {
    hide TrimSpace, AreSpaces;
    if lines != [] {
      BlankExactly(lines[0].text);
    }
    if k > 0 {
      assert lines[1..][k - 1..] == lines[k..];
      KeptFrom(lines[1..], k - 1);
    }
  }

  lemma {:induction false} FirstKept(lines: seq<I.Line>) returns (k: nat)
    ensures k <= |lines| && (forall i :: 0 <= i < k ==> AreSpaces(lines[i].text))
    ensures k < |lines| ==> !AreSpaces(lines[k].text)
  {
    hide AreSpaces;
    k := 0;
    while k < |lines| && AreSpaces(lines[k].text)
      invariant k <= |lines| && forall i :: 0 <= i < k ==> AreSpaces(lines[i].text)
    {
      k := k + 1;
    }
  }

  lemma HeaderNotBlank(s: string)
    requires IsAround(s, HEADER)
    ensures !AreSpaces(s)
  {
    hide TrimSpace;
    TrimmedExactly(s, HEADER);
    BlankExactly(s);
  }

  /** A text is read as keys exactly when it is such a file. */
  lemma FileExactly(lines: seq<I.Line>, keys: seq<I.ImportKey>)
    ensures I.DecodeLines(lines) == Ok(keys) <==> IsFile(lines, keys)
  {
    hide TrimSpace, I.SkipBlank, I.AddLines, Reads, IsAround, AreSpaces;
    var k := FirstKept(lines);
    KeptFrom(lines, k);
    if k < |lines| {
      TrimmedExactly(lines[k].text, HEADER);
      LinesExactly([], lines[k + 1..], keys);
      assert lines[k..][1..] == lines[k + 1..];
      if I.DecodeLines(lines) == Ok(keys) {
        assert IsHeader(lines, k);
      }
    }
    if IsFile(lines, keys) {
      var j :| 0 <= j < |lines| && IsHeader(lines, j) && Reads([], lines[j + 1..], keys);
      HeaderNotBlank(lines[j].text);
      assert j == k;
    }
  }

  /** Where a file is refused behind its header, the error is about the first line that means nothing there, with that
      line's number. */
  lemma {:induction false} FirstRefused(keys: seq<I.ImportKey>, lines: seq<I.Line>)
    returns (i: nat, before: seq<I.ImportKey>)
    requires I.AddLines(keys, lines).Err?
    ensures i < |lines| && Reads(keys, lines[..i], before)
    ensures forall after :: !Means(before, lines[i].text, after)
    ensures !I.AddLines(keys, lines).error.OddLength? && !I.AddLines(keys, lines).error.BadHeader?
    ensures I.AddLines(keys, lines).error.line == lines[i].number
    decreases |lines|
  {
    hide I.AddLine, Means;
    if I.AddLine(keys, lines[0]).Err? {
      i, before := 0, keys;
      Numbered(keys, lines[0]);
      forall after
        ensures !Means(before, lines[i].text, after)
      {
        LineExactly(keys, lines[0], after);
      }
    } else {
      var next := I.AddLine(keys, lines[0]).value;
      LineExactly(keys, lines[0], next);
      var j;
      j, before := FirstRefused(next, lines[1..]);
      i := j + 1;
      assert lines[..i][0] == lines[0] && lines[..i][1..] == lines[1..][..j];
    }
  }

  lemma Numbered(keys: seq<I.ImportKey>, line: I.Line)
    requires I.AddLine(keys, line).Err?
    ensures var e := I.AddLine(keys, line).error; !e.OddLength? && !e.BadHeader? && e.line == line.number
  {
    hide I.ValueLine, TrimSpace;
  }
}
