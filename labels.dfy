/** The texts the controller hands to the page: the round counter
    (script.js:298-302) and the closing winners summary (script.js:314). */
module Labels {
  import opened Options
  import opened Decimal
  import opened Cards

  const AllComplete: string := "All Rounds Complete!"

  /** The round counter's text for round `current` of `max`. */
  function RoundLabel(current: nat, max: nat): (r: string)
    ensures r == AllComplete <==> current > max
  {
    if current <= max then
      var r := "Round " + NatToString(current) + " of " + NatToString(max);
      assert r[0] != AllComplete[0];
      r
    else AllComplete
  }

  /** Length of the longest prefix of s made of digits. */
  function DigitSpan(s: string): (k: nat)
    ensures k <= |s| && AllDigits(s[..k])
    ensures k < |s| ==> !IsDigit(s[k])
  {
    if s == [] || !IsDigit(s[0]) then 0
    else
      var k := 1 + DigitSpan(s[1..]);
      assert s[..k] == [s[0]] + s[1..][..k - 1];
      k
  }

  /** Reads a round counter text back into (current, max); None for any text
      that is not of the form "Round <digits> of <digits>". */
  function ParseRoundLabel(t: string): Option<(nat, nat)> {
    if |t| >= 6 && t[..6] == "Round " then
      var rest := t[6..];
      var k := DigitSpan(rest);
      if k > 0 && |rest| >= k + 4 && rest[k..k + 4] == " of " then
        var tail := rest[k + 4..];
        if |tail| > 0 && AllDigits(tail) then Some((ParseNat(rest[..k]), ParseNat(tail)))
        else None
      else None
    else None
  }

  lemma {:induction false} DigitSpanOfDigits(d: string, t: string)
    requires AllDigits(d)
    requires |t| > 0 && !IsDigit(t[0])
    ensures DigitSpan(d + t) == |d|
    decreases |d|
  {
    if d == [] {
      assert d + t == t;
      assert DigitSpan(t) == 0;
    } else {
      var s := d + t;
      assert s[0] == d[0] && IsDigit(s[0]);
      assert s[1..] == d[1..] + t;
      assert AllDigits(d[1..]);
      DigitSpanOfDigits(d[1..], t);
      assert DigitSpan(s) == 1 + DigitSpan(s[1..]);
    }
  }

  lemma ParseRoundText(a: string, b: string)
    requires |a| > 0 && AllDigits(a) && |b| > 0 && AllDigits(b)
    ensures ParseRoundLabel("Round " + a + " of " + b) == Some((ParseNat(a), ParseNat(b)))
  {
    var t := "Round " + a + " of " + b;
    var rest := a + (" of " + b);
    assert t == "Round " + rest;
    assert t[..6] == "Round " && t[6..] == rest;
    DigitSpanOfDigits(a, " of " + b);
    var k := DigitSpan(rest);
    assert k == |a|;
    assert rest[..k] == a;
    assert rest[k..k + 4] == " of ";
    assert rest[k + 4..] == b;
  }

  /** The counter text determines the round and the round count while rounds
      remain, and is the completion text afterwards. */
  lemma ParseRoundLabelInverse(current: nat, max: nat)
    ensures ParseRoundLabel(RoundLabel(current, max)) ==
      if current <= max then Some((current, max)) else None
  {
    if current <= max {
      ParseRoundText(NatToString(current), NatToString(max));
      ParseNatToString(current);
      ParseNatToString(max);
    } else {
      assert AllComplete[..6] != "Round " by { assert AllComplete[0] == 'A'; }
    }
  }

  /** One line of the winners summary: the winner of round i + 1. */
  function WinnerLine(i: nat, c: Card): string {
    "Round " + NatToString(i + 1) + ": " + c.name
  }

  /** `usedCards.map((c, i) => ...)`, one line per winner in the order won. */
  function WinnerLines(used: seq<Card>): (r: seq<string>)
    ensures |r| == |used|
    ensures forall i :: 0 <= i < |used| ==> r[i] == WinnerLine(i, used[i])
  {
    seq(|used|, i requires 0 <= i < |used| => WinnerLine(i, used[i]))
  }

  /** `lines.join('\n')`. */
  function JoinLines(lines: seq<string>): string {
    if |lines| == 0 then ""
    else if |lines| == 1 then lines[0]
    else lines[0] + "\n" + JoinLines(lines[1..])
  }

  lemma {:induction false} JoinLinesAppend(lines: seq<string>, line: string)
    ensures JoinLines(lines + [line]) ==
      if lines == [] then line else JoinLines(lines) + "\n" + line
    decreases |lines|
  {
    if |lines| >= 2 {
      assert (lines + [line])[1..] == lines[1..] + [line];
      JoinLinesAppend(lines[1..], line);
    } else if |lines| == 1 {
      assert (lines + [line])[1..] == [line];
    }
  }

  predicate NoNewline(s: string) {
    forall i :: 0 <= i < |s| ==> s[i] != '\n'
  }

  /** `s.split('\n')`: the pieces between newlines, at least one. */
  function SplitLines(s: string): (r: seq<string>)
    ensures |r| > 0
  {
    if s == [] then [""]
    else if s[0] == '\n' then [""] + SplitLines(s[1..])
    else
      var rest := SplitLines(s[1..]);
      [[s[0]] + rest[0]] + rest[1..]
  }

  lemma {:induction false} SplitLinesFirst(line: string, t: string)
    requires NoNewline(line)
    ensures SplitLines(line + t) == [line + SplitLines(t)[0]] + SplitLines(t)[1..]
    decreases |line|
  {
    if line == [] {
      assert line + t == t;
      assert SplitLines(t) == [SplitLines(t)[0]] + SplitLines(t)[1..];
      assert line + SplitLines(t)[0] == SplitLines(t)[0];
    } else {
      assert (line + t)[1..] == line[1..] + t;
      SplitLinesFirst(line[1..], t);
      assert [line[0]] + (line[1..] + SplitLines(t)[0]) == line + SplitLines(t)[0];
    }
  }

  /** Splitting a joined list of newline-free lines gives the lines back. */
  lemma {:induction false} SplitJoinLines(lines: seq<string>)
    requires |lines| > 0
    requires forall i :: 0 <= i < |lines| ==> NoNewline(lines[i])
    ensures SplitLines(JoinLines(lines)) == lines
    decreases |lines|
  {
    if |lines| == 1 {
      SplitLinesFirst(lines[0], "");
      assert lines[0] + "" == lines[0];
    } else {
      var t := "\n" + JoinLines(lines[1..]);
      assert JoinLines(lines) == lines[0] + t;
      SplitJoinLines(lines[1..]);
      SplitLinesFirst(lines[0], t);
      assert t[1..] == JoinLines(lines[1..]);
      assert SplitLines(t) == [""] + lines[1..];
      assert lines[0] + "" == lines[0];
      assert lines == [lines[0]] + lines[1..];
    }
  }

  /** The text of the closing alert (script.js:314). */
  function WinnersSummary(max: nat, used: seq<Card>): string {
    "All " + NatToString(max) + " rounds complete!\n\nWinners:\n" + JoinLines(WinnerLines(used))
  }

  lemma WinnerLineNoNewline(i: nat, c: Card)
    requires NoNewline(c.name)
    ensures NoNewline(WinnerLine(i, c))
  {
    var d := NatToString(i + 1);
    var line := WinnerLine(i, c);
    forall j | 0 <= j < |line| ensures line[j] != '\n' {
      if 6 <= j < 6 + |d| {
        assert line[j] == d[j - 6];
      } else if j >= 6 + |d| + 2 {
        assert line[j] == c.name[j - 6 - |d| - 2];
      }
    }
  }

  lemma SummaryHeaderLines(max: nat, body: string)
    ensures SplitLines("All " + NatToString(max) + " rounds complete!\n\nWinners:\n" + body) ==
      ["All " + NatToString(max) + " rounds complete!", "", "Winners:"] + SplitLines(body)
  {
    var d := NatToString(max);
    var h1 := "All " + d + " rounds complete!";
    assert NoNewline(h1) by {
      forall j | 0 <= j < |h1| ensures h1[j] != '\n' {
        if 4 <= j < 4 + |d| {
          assert h1[j] == d[j - 4];
        }
      }
    }
    var rest2 := "\nWinners:\n" + body;
    var rest1 := "\n" + rest2;
    assert "All " + d + " rounds complete!\n\nWinners:\n" + body == h1 + rest1;
    SplitLinesFirst(h1, rest1);
    assert SplitLines(rest1) == [""] + SplitLines(rest2);
    assert SplitLines(rest2) == [""] + SplitLines(rest2[1..]);
    assert rest2[1..] == "Winners:" + ("\n" + body);
    SplitLinesFirst("Winners:", "\n" + body);
    assert SplitLines("\n" + body) == [""] + SplitLines(body);
    assert "Winners:" + "" == "Winners:";
    assert h1 + "" == h1;
  }

  /** When no winner's name holds a newline, the alert reads as its three
      header lines followed by exactly one line per winner, in round order. */
  lemma WinnersSummaryLines(max: nat, used: seq<Card>)
    requires |used| > 0
    requires forall i :: 0 <= i < |used| ==> NoNewline(used[i].name)
    ensures SplitLines(WinnersSummary(max, used)) ==
      ["All " + NatToString(max) + " rounds complete!", "", "Winners:"] + WinnerLines(used)
  {
    var lines := WinnerLines(used);
    forall i | 0 <= i < |lines| ensures NoNewline(lines[i]) {
      WinnerLineNoNewline(i, used[i]);
    }
    SplitJoinLines(lines);
    SummaryHeaderLines(max, JoinLines(lines));
  }

  /** Each further winner adds exactly one line, numbered by its round, at
      the end of the summary. */
  lemma {:induction false} WinnersSummaryAppend(max: nat, used: seq<Card>, winner: Card)
    requires |used| > 0
    ensures WinnersSummary(max, used + [winner]) ==
      WinnersSummary(max, used) + "\n" + WinnerLine(|used|, winner)
  {
    assert WinnerLines(used + [winner]) == WinnerLines(used) + [WinnerLine(|used|, winner)];
    JoinLinesAppend(WinnerLines(used), WinnerLine(|used|, winner));
  }
}
