/** `getIPMIInfo`: the two text parsers over the BMC tool's output. The
    network query prints `IP=<value>` and `MAC=<value>` lines; the user
    query prints a table whose data rows are `id | name | privilege |
    enabled`, framed by a header, a dashed rule and `Maximum`/`Count`
    footers.

    The two command runs are inputs: `None` when the command failed.
    Their output passes through the CR LF normaliser, as every captured
    output does. */
module Ipmi {
  import opened Wrappers
  import opened Text
  import opened Report

  datatype IpmiError =
    | IpQueryFailed     // the `-m` command failed
    | UserQueryFailed   // the `-user list` command failed

  // ---------------------------------------------------------------------
  // The IP / MAC scan

  /** `s` up to, not including, its first `c`; all of `s` if it has none. */
  function UpTo(s: string, c: char): (r: string)
    ensures r <= s && c !in r
    ensures |r| < |s| ==> s[|r|] == c
  {
    if c in s then s[..IndexOf(s, c)] else s
  }

  /** `strings.TrimSpace(strings.Split(line, "=")[1])`. */
  function ValueOf(line: string): string
    requires '=' in line
  {
    TrimSpace(Split(line, '=')[1])
  }

  /** The value is the trimmed text between the first and the second `=`
      (or the end of the line). */
  lemma ValueBetweenEquals(key: string, rest: string)
    requires '=' !in key
    ensures ValueOf(key + "=" + rest) == TrimSpace(UpTo(rest, '='))
  {
    SplitAppend(key, rest, '=');
    assert Split(key, '=') == [key];
  }

  /** A line that starts with a key and `=` holds an `=`. */
  lemma KeyLineHasEquals(line: string, prefix: string)
    requires HasPrefix(line, prefix) && prefix != [] && prefix[|prefix| - 1] == '='
    ensures '=' in line
  {
    assert line[|prefix| - 1] == '=';
  }

  /** One iteration of the scan. */
  function NetworkStep(info: IpmiInfo, line: string): IpmiInfo {
    if HasPrefix(line, "IP=") then
      KeyLineHasEquals(line, "IP=");
      info.(ip := ValueOf(line))
    else if HasPrefix(line, "MAC=") then
      KeyLineHasEquals(line, "MAC=");
      info.(mac := ValueOf(line))
    else info
  }

  /** The scan over the lines, first to last. */
  function ScanNetwork(info: IpmiInfo, lines: seq<string>): (r: IpmiInfo)
    ensures r.users == info.users
    decreases |lines|
  {
    if lines == [] then info else ScanNetwork(NetworkStep(info, lines[0]), lines[1..])
  }

  /** The network output parsed into a fresh record. */
  function ParseNetwork(output: string): (r: IpmiInfo)
    ensures r.users == []
  {
    ScanNetwork(EmptyIpmi, Split(output, '\n'))
  }

  /** Line `i` is the last one that starts with `prefix`. */
  predicate LastWithPrefix(lines: seq<string>, i: int, prefix: string) {
    && 0 <= i < |lines| && HasPrefix(lines[i], prefix)
    && forall j :: i < j < |lines| ==> !HasPrefix(lines[j], prefix)
  }

  /** The address comes from the last `IP=` line and the MAC from the last
      `MAC=` line; either keeps its old value when no line has its prefix.
      The user list is not touched. */
  lemma {:induction false} ScanNetworkLastWins(info: IpmiInfo, lines: seq<string>)
    ensures var r := ScanNetwork(info, lines);
      && r.users == info.users
      && ((forall i :: 0 <= i < |lines| ==> !HasPrefix(lines[i], "IP=")) ==> r.ip == info.ip)
      && ((forall i :: 0 <= i < |lines| ==> !HasPrefix(lines[i], "MAC=")) ==> r.mac == info.mac)
      && (forall i :: LastWithPrefix(lines, i, "IP=")
                      ==> '=' in lines[i] && r.ip == ValueOf(lines[i]))
      && (forall i :: LastWithPrefix(lines, i, "MAC=")
                      ==> '=' in lines[i] && r.mac == ValueOf(lines[i]))
    decreases |lines|
  {
    if lines != [] {
      var tail := lines[1..];
      var next := NetworkStep(info, lines[0]);
      ScanNetworkLastWins(next, tail);
      forall i | 0 <= i < |tail| ensures tail[i] == lines[i + 1] { }
      ShiftLast(lines, "IP=");
      ShiftLast(lines, "MAC=");
      forall i | LastWithPrefix(lines, i, "IP=") ensures '=' in lines[i] {
        KeyLineHasEquals(lines[i], "IP=");
      }
      forall i | LastWithPrefix(lines, i, "MAC=") ensures '=' in lines[i] {
        KeyLineHasEquals(lines[i], "MAC=");
      }
      assert !(HasPrefix(lines[0], "IP=") && HasPrefix(lines[0], "MAC="));
    }
  }

  /** How `LastWithPrefix` moves when the first line is dropped. */
  lemma ShiftLast(lines: seq<string>, prefix: string)
    requires lines != []
    ensures forall i :: 1 <= i && LastWithPrefix(lines, i, prefix)
                        ==> LastWithPrefix(lines[1..], i - 1, prefix)
    ensures LastWithPrefix(lines, 0, prefix)
            ==> forall i :: 0 <= i < |lines| - 1 ==> !HasPrefix(lines[1..][i], prefix)
    ensures (forall i :: 0 <= i < |lines| ==> !HasPrefix(lines[i], prefix))
            ==> !HasPrefix(lines[0], prefix)
                && forall i :: 0 <= i < |lines| - 1 ==> !HasPrefix(lines[1..][i], prefix)
  {
    forall i | 0 <= i < |lines| - 1 ensures lines[1..][i] == lines[i + 1] { }
    forall i | 1 <= i && LastWithPrefix(lines, i, prefix)
      ensures LastWithPrefix(lines[1..], i - 1, prefix)
    {
      forall j | i - 1 < j < |lines| - 1 ensures !HasPrefix(lines[1..][j], prefix) {
        assert lines[1..][j] == lines[j + 1];
      }
    }
  }

  // ---------------------------------------------------------------------
  // The user table

  /** A trimmed line that is the header, the rule, a footer, or blank. */
  predicate Skipped(t: string) {
    || HasPrefix(t, "User ID") || HasPrefix(t, "-------")
    || HasPrefix(t, "Maximum") || HasPrefix(t, "Count") || t == ""
  }

  /** The user a trimmed table line describes, if any: the line is cut at
      its first three `|` into four trimmed fields; any further `|` stays
      inside the last field. */
  function UserOfRow(t: string): (r: Option<IpmiUser>)
    ensures r.Some? <==> !Skipped(t) && Count(t, '|') >= 3
  {
    if Skipped(t) then None
    else
      var parts := SplitN(t, '|', 4);
      SplitNFull(t, '|', 4);
      if |parts| != 4 then None
      else Some(IpmiUser(TrimSpace(parts[0]), TrimSpace(parts[1]),
                         TrimSpace(parts[2]), TrimSpace(parts[3])))
  }

  /** A user row is four `|`-separated pieces, the first three free of
      `|`, whose trimmed texts are the user's fields. */
  lemma UserOfRowFields(t: string)
    requires UserOfRow(t).Some?
    ensures exists parts: seq<string> ::
      && |parts| == 4 && Join(parts, '|') == t
      && '|' !in parts[0] && '|' !in parts[1] && '|' !in parts[2]
      && UserOfRow(t).value == IpmiUser(TrimSpace(parts[0]), TrimSpace(parts[1]),
                                        TrimSpace(parts[2]), TrimSpace(parts[3]))
  {
    var parts := SplitN(t, '|', 4);
    SplitNPieces(t, '|', 4);
    assert |parts| == 4;
  }

  /** One iteration of the user loop: the line is trimmed first. */
  function UserOfLine(line: string): (r: Option<IpmiUser>)
    ensures r.Some? <==> !Skipped(TrimSpace(line)) && Count(TrimSpace(line), '|') >= 3
  {
    UserOfRow(TrimSpace(line))
  }

  /** The users of the table lines, in line order. */
  function UsersOf(lines: seq<string>): (r: seq<IpmiUser>)
    ensures |r| <= |lines|
  {
    Collect(UserOfLine, lines)
  }

  /** The user-list output parsed into users. */
  function ParseUsers(output: string): (r: seq<IpmiUser>)
    ensures |r| <= Count(output, '\n') + 1
  {
    SplitLength(output, '\n');
    UsersOf(Split(output, '\n'))
  }

  lemma UsersOfAppend(a: seq<string>, b: seq<string>)
    ensures UsersOf(a + b) == UsersOf(a) + UsersOf(b)
  {
    CollectAppend(UserOfLine, a, b);
  }

  /** Users keep line order: the users of two blocks of lines are those of
      the first block followed by those of the second. */
  lemma ParseUsersAppend(a: string, b: string)
    ensures ParseUsers(a + "\n" + b) == ParseUsers(a) + ParseUsers(b)
  {
    SplitAppend(a, b, '\n');
    UsersOfAppend(Split(a, '\n'), Split(b, '\n'));
  }

  /** A single line yields its own user, or none. */
  lemma ParseUsersOneLine(line: string)
    requires '\n' !in line
    ensures ParseUsers(line) == match UserOfLine(line) case Some(u) => [u] case None => []
  {
    assert Split(line, '\n') == [line];
    assert [line][1..] == [];
  }

  /** Output made only of the header, the rule, footers and blank lines
      yields no users. */
  lemma FramingOnlyHasNoUsers(lines: seq<string>)
    requires forall i :: 0 <= i < |lines| ==> Skipped(TrimSpace(lines[i]))
    ensures UsersOf(lines) == []
  {
    forall i | 0 <= i < |lines| ensures UserOfLine(lines[i]).None? {
      assert Skipped(TrimSpace(lines[i]));
    }
    CollectNone(UserOfLine, lines);
  }

  lemma SplitNGlued(a: string, rest: string, sep: char, n: nat)
    requires sep !in a && n > 1
    ensures SplitN(a + [sep] + rest, sep, n) == [a] + SplitN(rest, sep, n - 1)
  {
    var s := a + [sep] + rest;
    IndexOfGlued(a, sep, rest);
    assert s[..|a|] == a;
    assert s[|a| + 1..] == rest;
  }

  /** A row of four `|`-separated fields parses to the four fields,
      trimmed, whatever white space pads them; the last field may itself
      hold `|`. (The row `2 | root | ADMINISTRATOR | true`, padded with
      spaces on either side, is one instance.) */
  lemma RowFields(p0: string, p1: string, p2: string, p3: string)
    requires '|' !in p0 && '|' !in p1 && '|' !in p2
    requires !Skipped(TrimSpace(p0 + "|" + p1 + "|" + p2 + "|" + p3))
    ensures UserOfLine(p0 + "|" + p1 + "|" + p2 + "|" + p3)
         == Some(IpmiUser(TrimSpace(p0), TrimSpace(p1), TrimSpace(p2), TrimSpace(p3)))
  {
    var q0, q3 := TrimLeft(p0), TrimRight(p3);
    RowTrim(p0, p1, p2, p3);
    TrimLeftShape(p0);
    TrimRightShape(p3);
    assert forall k :: 0 <= k < |q0| ==> q0[k] == p0[|p0| - |q0| + k];
    assert '|' !in q0;
    TrimmedRowFields(q0, p1, p2, q3);
    TrimSpaceOfTrimLeft(p0);
    TrimSpaceOfTrimRight(p3);
  }

  /** Trimming such a row trims the outer sides of its first and last
      fields only: the bars stop the trim. */
  lemma RowTrim(p0: string, p1: string, p2: string, p3: string)
    ensures TrimSpace(p0 + "|" + p1 + "|" + p2 + "|" + p3)
         == TrimLeft(p0) + "|" + p1 + "|" + p2 + "|" + TrimRight(p3)
  {
    var q0 := TrimLeft(p0);
    var a := p0 + "|";
    TrimLeftBefore(p0, "|");
    assert TrimLeft(a) == q0 + "|";
    TrimLeftKeeps(a, p1);
    TrimLeftKeeps(a + p1, "|");
    TrimLeftKeeps(a + p1 + "|", p2);
    TrimLeftKeeps(a + p1 + "|" + p2, "|");
    TrimLeftKeeps(a + p1 + "|" + p2 + "|", p3);
    var l := q0 + "|" + p1 + "|" + p2 + "|";
    assert TrimLeft(p0 + "|" + p1 + "|" + p2 + "|" + p3) == l + p3;
    assert l[|l| - 1] == '|';
    TrimRightAfter(l, p3);
  }

  /** The parse of a row whose ends are not white space. */
  lemma TrimmedRowFields(p0: string, p1: string, p2: string, p3: string)
    requires '|' !in p0 && '|' !in p1 && '|' !in p2
    requires p0 == [] || !IsSpace(p0[0])
    requires p3 == [] || !IsSpace(p3[|p3| - 1])
    requires !Skipped(p0 + "|" + p1 + "|" + p2 + "|" + p3)
    ensures UserOfLine(p0 + "|" + p1 + "|" + p2 + "|" + p3)
         == Some(IpmiUser(TrimSpace(p0), TrimSpace(p1), TrimSpace(p2), TrimSpace(p3)))
  {
    var t := p0 + "|" + p1 + "|" + p2 + "|" + p3;
    RowUntrimmed(p0, p1, p2, p3);
    RowSplit(p0, p1, p2, p3);
    UserOfFourPieces(t);
  }

  /** A line that survives the skip rules and splits into four pieces is
      the user of those pieces, trimmed. */
  lemma UserOfFourPieces(t: string)
    requires TrimSpace(t) == t && !Skipped(t) && |SplitN(t, '|', 4)| == 4
    ensures var q := SplitN(t, '|', 4);
      UserOfLine(t) == Some(IpmiUser(TrimSpace(q[0]), TrimSpace(q[1]),
                                     TrimSpace(q[2]), TrimSpace(q[3])))
  {
  }

  /** Such a row starts and ends with something other than white space. */
  lemma RowUntrimmed(p0: string, p1: string, p2: string, p3: string)
    requires p0 == [] || !IsSpace(p0[0])
    requires p3 == [] || !IsSpace(p3[|p3| - 1])
    ensures TrimSpace(p0 + "|" + p1 + "|" + p2 + "|" + p3) == p0 + "|" + p1 + "|" + p2 + "|" + p3
  {
    var t := p0 + "|" + p1 + "|" + p2 + "|" + p3;
    assert t[0] == if p0 == [] then '|' else p0[0];
    assert t[|t| - 1] == if p3 == [] then '|' else p3[|p3| - 1];
    assert TrimLeft(t) == t;
    assert TrimRight(t) == t;
  }

  /** Such a row splits at its three glue characters. */
  lemma RowSplit(p0: string, p1: string, p2: string, p3: string)
    requires '|' !in p0 && '|' !in p1 && '|' !in p2
    ensures var q := SplitN(p0 + "|" + p1 + "|" + p2 + "|" + p3, '|', 4);
      |q| == 4 && q[0] == p0 && q[1] == p1 && q[2] == p2 && q[3] == p3
  {
    RightNested(p0, p1, p2, p3);
    SplitBar(p0, p1 + "|" + (p2 + "|" + p3), 4);
    SplitBar(p1, p2 + "|" + p3, 3);
    SplitBar(p2, p3, 2);
    assert SplitN(p3, '|', 1) == [p3];
    Four(p0, p1, p2, p3);
  }

  lemma Four(p0: string, p1: string, p2: string, p3: string)
    ensures var q := [p0] + ([p1] + ([p2] + [p3]));
      |q| == 4 && q[0] == p0 && q[1] == p1 && q[2] == p2 && q[3] == p3
  {
  }

  /** `SplitNGlued` for the bar that separates the table's columns. */
  lemma SplitBar(a: string, rest: string, n: nat)
    requires '|' !in a && n > 1
    ensures SplitN(a + "|" + rest, '|', n) == [a] + SplitN(rest, '|', n - 1)
  {
    SplitNGlued(a, rest, '|', n);
  }

  /** Four pieces glued left to right are glued right to left. */
  lemma RightNested(p0: string, p1: string, p2: string, p3: string)
    ensures p0 + "|" + p1 + "|" + p2 + "|" + p3 == p0 + "|" + (p1 + "|" + (p2 + "|" + p3))
  {
  }


  // ---------------------------------------------------------------------
  // Line endings

  /** Removing a CR from the end of a line does not change what the scan
      makes of it. */
  lemma NetworkStepDropCR(info: IpmiInfo, line: string)
    ensures NetworkStep(info, DropCR(line)) == NetworkStep(info, line)
  {
    if line != [] && line[|line| - 1] == '\r' {
      var x := line[..|line| - 1];
      assert line == x + "\r";
      if HasPrefix(line, "IP=") || HasPrefix(line, "MAC=") {
        assert HasPrefix(x, "IP=") == HasPrefix(line, "IP=");
        assert HasPrefix(x, "MAC=") == HasPrefix(line, "MAC=");
        if HasPrefix(x, "IP=") {
          KeyLineHasEquals(x, "IP=");
        } else {
          KeyLineHasEquals(x, "MAC=");
        }
        ValueOfDropCR(x);
      } else {
        assert !HasPrefix(x, "IP=") && !HasPrefix(x, "MAC=");
      }
    }
  }

  lemma ValueOfDropCR(x: string)
    requires '=' in x
    ensures '=' in x + "\r"
    ensures ValueOf(x + "\r") == ValueOf(x)
  {
    var i := IndexOf(x, '=');
    var a, b := x[..i], x[i + 1..];
    assert x == a + "=" + b;
    assert x + "\r" == a + "=" + (b + "\r");
    ValueBetweenEquals(a, b);
    ValueBetweenEquals(a, b + "\r");
    UpToExtend(b);
  }

  /** A CR after the value does not survive trimming. */
  lemma UpToExtend(b: string)
    ensures TrimSpace(UpTo(b + "\r", '=')) == TrimSpace(UpTo(b, '='))
  {
    UpToCR(b);
    if '=' !in b {
      TrimDropCR(b + "\r");
      assert DropCR(b + "\r") == b;
    }
  }

  /** Appending a CR only reaches the text up to `=` when `b` has no `=`. */
  lemma UpToCR(b: string)
    ensures UpTo(b + "\r", '=') == if '=' in b then UpTo(b, '=') else b + "\r"
  {
    var s := b + "\r";
    if '=' in b {
      var j := IndexOf(b, '=');
      assert s[j] == '=';
      assert s[..j] == b[..j];
      var k := IndexOf(s, '=');
      assert k == j;
    } else {
      assert '=' !in s;
    }
  }


  lemma {:induction false} ScanNetworkDropCRs(info: IpmiInfo, lines: seq<string>)
    ensures ScanNetwork(info, DropCRs(lines)) == ScanNetwork(info, lines)
    decreases |lines|
  {
    if lines != [] {
      NetworkStepDropCR(info, lines[0]);
      var next := NetworkStep(info, lines[0]);
      if |lines| == 1 {
        assert DropCRs(lines) == lines;
      } else {
        DropCRsTail(lines);
        ScanNetworkDropCRs(next, lines[1..]);
      }
    }
  }

  lemma DropCRsTail(lines: seq<string>)
    requires |lines| > 1
    ensures DropCRs(lines)[0] == DropCR(lines[0])
    ensures DropCRs(lines)[1..] == DropCRs(lines[1..])
  {
  }

  lemma TrimDropCR(l: string)
    ensures TrimSpace(DropCR(l)) == TrimSpace(l)
  {
    if l != [] && l[|l| - 1] == '\r' {
      var x := l[..|l| - 1];
      assert l == [] + x + "\r";
      assert AllSpace("\r");
      TrimSpacePadded([], x, "\r");
    }
  }

  lemma UsersOfDropCRs(lines: seq<string>)
    ensures UsersOf(DropCRs(lines)) == UsersOf(lines)
  {
    var d := DropCRs(lines);
    forall i | 0 <= i < |lines| ensures UserOfLine(d[i]) == UserOfLine(lines[i]) {
      TrimDropCR(lines[i]);
    }
    CollectAlike(UserOfLine, d, lines);
  }

  /** CR LF line endings make no difference to either parser: normalising
      them first gives the same address, MAC and users. */
  lemma NormalizingIsInvisible(output: string)
    ensures ParseNetwork(NormalizeNewlines(output)) == ParseNetwork(output)
    ensures ParseUsers(NormalizeNewlines(output)) == ParseUsers(output)
  {
    NormalizeLines(output);
    ScanNetworkDropCRs(EmptyIpmi, Split(output, '\n'));
    UsersOfDropCRs(Split(output, '\n'));
  }

  // ---------------------------------------------------------------------
  // The whole query

  /** `getIPMIInfo` on the report `rep`: both outputs are needed; the BMC
      record is replaced only when both commands succeed. */
  function GetIpmiInfo(rep: FullSystemInfo, ipOutput: Option<string>, userOutput: Option<string>)
    : (r: Result<FullSystemInfo, IpmiError>)
    ensures ipOutput.None? <==> r == Failure(IpQueryFailed)
    ensures ipOutput.Some? && userOutput.None? <==> r == Failure(UserQueryFailed)
    ensures r.Success? ==> r.value == rep.(ipmi := r.value.ipmi)
    ensures r.Success? ==> r.value.ipmi.users == ParseUsers(userOutput.value)
    ensures r.Success? ==> r.value.ipmi.(users := []) == ParseNetwork(ipOutput.value)
  {
    match ipOutput
    case None => Failure(IpQueryFailed)
    case Some(ipText) =>
      var info := ParseNetwork(NormalizeNewlines(ipText));
      match userOutput
      case None => Failure(UserQueryFailed)
      case Some(userText) =>
        NormalizingIsInvisible(ipText);
        NormalizingIsInvisible(userText);
        ScanNetworkLastWins(EmptyIpmi, Split(NormalizeNewlines(ipText), '\n'));
        Success(rep.(ipmi := info.(users := ParseUsers(NormalizeNewlines(userText)))))
  }
}
