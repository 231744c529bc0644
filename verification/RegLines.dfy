/** Which lines the reader of .reg files makes of a text (regLogicalLines, vfs/registry_reg_import.go): what ends a
    line, and exactly which lines go on in the next one. */
module RegLines {
  import opened Base
  import opened RegFormat
  import opened RegGrammar
  import I = RegImport

  // ----- the ends of lines

  /** Lines with their ends, each a line feed with or without a carriage return before it; the last one has none. */
  function TextOf(lines: seq<string>, withReturn: seq<bool>): string
    requires 1 <= |lines| <= |withReturn| + 1
    decreases |lines|
  {
    if |lines| == 1 then lines[0]
    else lines[0] + ((if withReturn[0] then "\r\n" else "\n") + TextOf(lines[1..], withReturn[1..]))
  }

  lemma {:induction false} ReturnsKept(a: string, rest: string)
    requires '\n' !in a
    requires rest != "" && rest[0] == '\n' ==> a == "" || a[|a| - 1] != '\r'
    ensures I.ReplaceCrLf(a + rest) == a + I.ReplaceCrLf(rest)
    decreases |a|
  {
    if a == "" {
      assert a + rest == rest;
    } else {
      var s := a + rest;
      assert s[0] == a[0] && s[1..] == a[1..] + rest;
      assert |s| >= 2 ==> s[1] == if |a| > 1 then a[1] else rest[0];
      ReturnsKept(a[1..], rest);
      assert [a[0]] + a[1..] == a;
    }
  }

  lemma EndReplaced(cr: bool, rest: string)
    ensures I.ReplaceCrLf((if cr then "\r\n" else "\n") + rest) == "\n" + I.ReplaceCrLf(rest)
  {
    var s := (if cr then "\r\n" else "\n") + rest;
    assert s[|s| - |rest|..] == rest;
  }

  lemma NothingReplaced()
    ensures I.ReplaceCrLf("") == ""
  {
  }

  /** Such a text has exactly these lines. */
  lemma {:induction false} LinesBack(lines: seq<string>, withReturn: seq<bool>)
    requires 1 <= |lines| <= |withReturn| + 1
    requires forall i :: 0 <= i < |lines| ==> '\n' !in lines[i]
    requires forall i :: 0 <= i < |lines| - 1 ==>
                           withReturn[i] || lines[i] == "" || lines[i][|lines[i]| - 1] != '\r'
    ensures I.PhysicalLines(TextOf(lines, withReturn)) == lines
    decreases |lines|
  {
    hide I.ReplaceCrLf;
    if |lines| == 1 {
      ReturnsKept(lines[0], "");
      NothingReplaced();
      assert lines[0] + "" == lines[0];
      SplitFree(lines[0], '\n');
    } else {
      var rest := TextOf(lines[1..], withReturn[1..]);
      var end := (if withReturn[0] then "\r\n" else "\n") + rest;
      ReturnsKept(lines[0], end);
      EndReplaced(withReturn[0], rest);
      LinesBack(lines[1..], withReturn[1..]);
      Assoc(lines[0], "\n", I.ReplaceCrLf(rest));
      SplitAppend(lines[0], '\n', I.ReplaceCrLf(rest));
      SplitFree(lines[0], '\n');
    }
  }

  // ----- quotes

  /** What may stand between quotes: a quote only behind a backslash that keeps it. */
  predicate IsWhole(s: string) {
    s == "" || if s[0] == '\\' then |s| >= 2 && IsWhole(s[2..]) else s[0] != '"' && IsWhole(s[1..])
  }

  /** What may stand behind a quote that is not closed. */
  predicate IsRaw(s: string) {
    s == "" || if s[0] == '\\' then |s| == 1 || IsRaw(s[2..]) else s[0] != '"' && IsRaw(s[1..])
  }

  /** Every quote in the text is closed. */
  predicate IsClosed(s: string)
    decreases |s|
  {
    || s == ""
    || (s[0] != '"' && IsClosed(s[1..]))
    || (s[0] == '"' && exists k :: 0 < k < |s| && s[k] == '"' && IsWhole(s[1..k]) && IsClosed(s[k + 1..]))
  }

  /** The last quote is not closed. */
  predicate IsOpen(s: string) {
    exists k :: 0 <= k < |s| && s[k] == '"' && IsClosed(s[..k]) && IsRaw(s[k + 1..])
  }

  lemma {:induction false} WholePassed(raw: string, rest: string)
    requires IsWhole(raw)
    ensures I.EndsInside(raw + ("\"" + rest), true) == I.EndsInside(rest, false)
    decreases |raw|
  {
    var s := raw + ("\"" + rest);
    if raw == "" {
      assert s[1..] == rest;
    } else {
      var n := if raw[0] == '\\' then 2 else 1;
      assert s[n..] == raw[n..] + ("\"" + rest);
      WholePassed(raw[n..], rest);
    }
  }

  lemma {:induction false} RawInside(s: string)
    requires IsRaw(s)
    ensures I.EndsInside(s, true)
    decreases |s|
  {
    if |s| > 1 {
      RawInside(s[if s[0] == '\\' then 2 else 1..]);
    } else if |s| == 1 {
      assert s[1..] == "";
    }
  }

  lemma QuotePassed(a: string, s: string, k: nat)
    requires 0 < k < |a| && a[0] == '"' && a[k] == '"' && IsWhole(a[1..k])
    ensures I.EndsInside(a + s, false) == I.EndsInside(a[k + 1..] + s, false)
  {
    hide IsWhole;
    assert (a + s)[1..] == a[1..k] + ("\"" + (a[k + 1..] + s));
    WholePassed(a[1..k], a[k + 1..] + s);
  }

  lemma {:induction false} ClosedPassed(a: string, s: string)
    requires IsClosed(a)
    ensures I.EndsInside(a + s, false) == I.EndsInside(s, false)
    decreases |a|
  {
    hide IsWhole;
    if a == "" {
      assert a + s == s;
    } else if a[0] != '"' {
      assert (a + s)[1..] == a[1..] + s;
      ClosedPassed(a[1..], s);
    } else {
      var k :| 0 < k < |a| && a[k] == '"' && IsWhole(a[1..k]) && IsClosed(a[k + 1..]);
      QuotePassed(a, s, k);
      ClosedPassed(a[k + 1..], s);
    }
  }

  /** Behind a quote there is its end or none. */
  lemma {:induction false} EndOf(t: string) returns (k: nat)
    ensures IsRaw(t) || (k < |t| && t[k] == '"' && IsWhole(t[..k]))
    decreases |t|
  {
    k := 0;
    if t != "" && t[0] != '"' && !(t[0] == '\\' && |t| == 1) {
      var n := if t[0] == '\\' then 2 else 1;
      k := EndOf(t[n..]);
      if !IsRaw(t[n..]) {
        assert t[..k + n][n..] == t[n..][..k];
      }
      k := k + n;
    } else if t != "" {
      assert t[..0] == "" && t[1..] == t[1..];
    }
  }

  lemma {:induction false} OpenOrClosed(s: string)
    ensures IsOpen(s) || IsClosed(s)
    decreases |s|
  {
    if s != "" && s[0] != '"' {
      OpenOrClosed(s[1..]);
      if IsOpen(s[1..]) {
        OpenFurther(s, 1);
      }
    } else if s != "" {
      var k := EndOf(s[1..]);
      if IsRaw(s[1..]) {
        assert s[..0] == "" && s[0 + 1..] == s[1..];
      } else {
        assert s[1..][..k] == s[1..k + 1] && s[1..][k] == s[k + 1];
        OpenOrClosed(s[k + 2..]);
        if IsOpen(s[k + 2..]) {
          OpenFurther(s, k + 2);
        }
      }
    }
  }

  lemma OpenFurther(s: string, n: nat)
    requires 1 <= n <= |s| && IsOpen(s[n..])
    requires if n == 1 then s[0] != '"' else s[0] == '"' && s[n - 1] == '"' && IsWhole(s[1..n - 1])
    ensures IsOpen(s)
  {
    hide IsWhole, IsRaw;
    var k :| 0 <= k < |s[n..]| && s[n..][k] == '"' && IsClosed(s[n..][..k]) && IsRaw(s[n..][k + 1..]);
    var a := s[..n + k];
    assert a[n..] == s[n..][..k] && s[n..][k + 1..] == s[n + k + 1..];
    assert IsClosed(a) by {
      if n > 1 {
        assert a[1..n - 1] == s[1..n - 1] && a[n - 1] == '"';
      }
    }
    assert s[n + k] == '"';
  }

  /** The reader takes a text to end inside quotes exactly when its last quote is not closed. */
  lemma OpenExactly(s: string)
    ensures I.EndsInside(s, false) <==> IsOpen(s)
  {
    OpenOrClosed(s);
    if IsOpen(s) {
      var k :| 0 <= k < |s| && s[k] == '"' && IsClosed(s[..k]) && IsRaw(s[k + 1..]);
      assert s == s[..k] + s[k..] && s[k..][1..] == s[k + 1..];
      ClosedPassed(s[..k], s[k..]);
      RawInside(s[k + 1..]);
    } else {
      assert s + "" == s;
      ClosedPassed(s, "");
    }
  }

  // ----- joining

  /** A line goes on in the next one: a backslash, at most blanks behind it, and no quote left open before it. */
  ghost predicate GoesOn(text: string, body: string) {
    !IsOpen(body + "\\") && exists gap :: AreBlanks(gap) && text == body + ("\\" + gap)
  }

  lemma GoesOnExactly(text: string)
    ensures I.Continues(text) <==> exists body :: GoesOn(text, body)
  {
    hide TrimRight, IsOpen, I.EndsInside;
    var gap := RightCut(text, IsBlank);
    var t := TrimRight(text, IsBlank);
    OpenExactly(t);
    if I.Continues(text) {
      var body := t[..|t| - 1];
      assert t[|t| - 1..] == [t[|t| - 1]];
      assert body + "\\" == t && text == body + ("\\" + gap) && AreBlanks(gap);
      assert GoesOn(text, body);
    }
    if body :| GoesOn(text, body) {
      Trimmed(text, body);
      assert t[|t| - 1..] == "\\";
    }
  }

  lemma Trimmed(text: string, body: string)
    requires GoesOn(text, body)
    ensures TrimRight(text, IsBlank) == body + "\\"
  {
    hide TrimRight;
    var gap :| AreBlanks(gap) && text == body + ("\\" + gap);
    assert text == body + "\\" + gap;
    RightDropped(body + "\\", gap, IsBlank);
  }

  lemma JoinedIs(text: string, body: string, next: string, gap: string, rest: string)
    requires GoesOn(text, body) && next == gap + rest && AreBlanks(gap) && (rest != "" ==> rest[0] !in {' ', '\t'})
    ensures I.Continues(text) && I.Joined(text, next) == body + rest
  {
    hide TrimRight, TrimLeft, IsOpen, I.Continues;
    GoesOnExactly(text);
    Trimmed(text, body);
    LeftDropped(gap, rest, IsBlank);
  }

  /** A line that does not go on, and the last one, stands for itself, with its number. */
  lemma LineByItself(physical: seq<string>, number: nat)
    requires physical != [] && (|physical| == 1 || forall body :: !GoesOn(physical[0], body))
    ensures I.LogicalLines(physical, number)
         == [I.Line(number, physical[0])] + I.LogicalLines(physical[1..], number + 1)
  {
    hide I.Continues, GoesOn;
    GoesOnExactly(physical[0]);
  }

  /** A line that goes on is one line with the next, without the blanks between them, and has the number of the first;
      the line behind them is numbered as if they were two. */
  lemma LineWithNext(physical: seq<string>, number: nat, body: string, gap: string, rest: string)
    requires |physical| >= 2 && GoesOn(physical[0], body)
    requires physical[1] == gap + rest && AreBlanks(gap) && (rest != "" ==> rest[0] !in {' ', '\t'})
    ensures var lines := I.LogicalLines([body + rest] + physical[2..], number + 1);
            lines != [] && I.LogicalLines(physical, number) == [I.Line(number, lines[0].text)] + lines[1..]
  {
    hide I.Continues, GoesOn, I.Joined;
    JoinedIs(physical[0], body, physical[1], gap, rest);
    var joined := [body + rest] + physical[2..];
    assert joined[1..] == physical[1..][1..];
    var (_, n) := I.JoinLines(joined[0], joined[1..]);
    assert joined[1 + n..] == physical[2 + n..];
  }
}
