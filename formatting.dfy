/**
 * The small pure helpers the exporters apply to each row: the row-height
 * rule of the Excel exporters, the vulnerability worksheet name, the
 * port label and port cells, the host-name cell, the CVE text and the
 * cap on the number of hosts in the Excel summary chart.
 */
module Formatting {
  import opened Entities
  import opened Text

  // ---------------------------------------------------------------
  // Row height (`__row_height`)
  // ---------------------------------------------------------------

  /** One text line of a worksheet row, in points. */
  const LineHeight: nat := 15

  function NewlineCount(text: string): nat
  {
    CountChar(text, '\n')
  }

  /** `(max(len(text) // width, text.count('\n')) + 1) * 15`: enough
      15-point lines for the wrapped length and for the explicit line
      breaks, whichever needs more, plus one. */
  function RowHeight(text: string, width: nat): (h: nat)
    requires width > 0
    ensures h % LineHeight == 0 && h >= LineHeight
    ensures h / LineHeight - 1 >= |text| / width
    ensures h / LineHeight - 1 >= NewlineCount(text)
    ensures h / LineHeight - 1 == |text| / width || h / LineHeight - 1 == NewlineCount(text)
  {
    var lines := if |text| / width >= NewlineCount(text) then |text| / width else NewlineCount(text);
    (lines + 1) * LineHeight
  }

  /** A row never gets shorter when its text grows. */
  lemma RowHeightMonotone(text: string, more: string, width: nat)
    requires width > 0
    ensures RowHeight(text, width) <= RowHeight(text + more, width)
  {
    CountCharConcat(text, more, '\n');
    DivMonotone(|text|, |text + more|, width);
  }

  lemma DivMonotone(a: nat, b: nat, d: nat)
    requires d > 0 && a <= b
    ensures a / d <= b / d
  {
    var qa, qb := a / d, b / d;
    assert qa * d <= a;
    assert b < qb * d + d;
    MulCancel(qa, qb + 1, d);
  }

  lemma MulCancel(x: nat, y: nat, d: nat)
    requires d > 0 && x * d < y * d
    ensures x < y
  {
    assert x * d - y * d == (x - y) * d;
  }

  /** A row is never taller than one line per character plus one. */
  lemma RowHeightBound(text: string, width: nat)
    requires width > 0
    ensures RowHeight(text, width) <= (|text| + 1) * LineHeight
  {
    CountCharBound(text, '\n');
  }

  // ---------------------------------------------------------------
  // Vulnerability worksheet name
  // ---------------------------------------------------------------

  /** The characters the sheet-name pattern `[\[\]\\'"&@#():*?/]` removes. */
  const Forbidden: set<char> := {'[', ']', '\\', '\'', '"', '&', '@', '#', '(', ')', ':', '*', '?', '/'}

  /** The name with every forbidden character removed, the rest kept in order. */
  function StripForbidden(s: string): (r: string)
    ensures |r| <= |s|
    ensures forall c :: c in r <==> c in s && c !in Forbidden
    decreases |s|
  {
    if s == [] then []
    else
      var rest := StripForbidden(s[..|s| - 1]);
      var c := s[|s| - 1];
      assert s == s[..|s| - 1] + [c];
      if c in Forbidden then rest else rest + [c]
  }

  /** Removing nothing changes nothing: a name without forbidden
      characters is kept, so stripping twice is stripping once. */
  lemma {:induction false} StripForbiddenClean(s: string)
    requires forall c :: c in s ==> c !in Forbidden
    ensures StripForbidden(s) == s
    decreases |s|
  {
    if s != [] {
      assert s[|s| - 1] in s;
      StripForbiddenClean(s[..|s| - 1]);
      assert s == s[..|s| - 1] + [s[|s| - 1]];
    }
  }

  /** Stripping works character by character: the kept characters of a
      concatenation are those of each part, in order and with repeats. */
  lemma {:induction false} StripForbiddenConcat(a: string, b: string)
    ensures StripForbidden(a + b) == StripForbidden(a) + StripForbidden(b)
    decreases |b|
  {
    if b == [] {
      assert a + b == a;
    } else {
      var b' := b[..|b| - 1];
      assert (a + b)[..|a + b| - 1] == a + b';
      assert (a + b)[|a + b| - 1] == b[|b| - 1];
      StripForbiddenConcat(a, b');
    }
  }

  /** A single character is kept exactly when it is not forbidden. */
  lemma StripForbiddenChar(c: char)
    ensures StripForbidden([c]) == if c in Forbidden then [] else [c]
  {
    assert [c][..0] == [];
  }

  lemma StripForbiddenIdempotent(s: string)
    ensures StripForbidden(StripForbidden(s)) == StripForbidden(s)
  {
    StripForbiddenClean(StripForbidden(s));
  }

  /** Longest sheet-name body: Excel allows 31 characters, four go to the prefix. */
  const MaxBody: nat := 27

  /** A body longer than 27 characters keeps its first 15 and last 10,
      joined by `".."`. */
  function Shorten(s: string): (r: string)
    ensures |s| <= MaxBody ==> r == s
    ensures |s| > MaxBody ==> |r| == MaxBody && r[..15] == s[..15] && r[15..17] == ".." && r[17..] == s[|s| - 10..]
    ensures forall c :: c in r ==> c in s || c == '.'
  {
    if |s| > MaxBody then
      var r := s[0..15] + ".." + s[|s| - 10..];
      assert forall k :: 0 <= k < |r| ==> r[k] == s[k] || r[k] == '.' || r[k] == s[|s| - 27 + k];
      r
    else s
  }

  /** `"{:03X}_{}".format(i, body)` with the body stripped and shortened. */
  function SheetName(i: nat, name: string): string
  {
    Hex3(i) + "_" + Shorten(StripForbidden(name))
  }

  /** The sheet name holds no forbidden character, starts with the index in
      upper-case hexadecimal followed by `_`, and for the indexes 1 to
      0xFFF fits Excel's 31-character limit. */
  lemma SheetNameSpec(i: nat, name: string)
    ensures forall c :: c in SheetName(i, name) ==> c !in Forbidden
    ensures SheetName(i, name)[|Hex3(i)|] == '_'
    ensures ValueIn(SheetName(i, name)[..|Hex3(i)|], 16) == i
    ensures i < 0x1000 ==> |SheetName(i, name)| <= 31
  {
    Hex3Spec(i);
    var h := Hex3(i);
    var body := Shorten(StripForbidden(name));
    assert SheetName(i, name) == h + ("_" + body);
    assert SheetName(i, name)[..|h|] == h;
    forall c | c in SheetName(i, name)
      ensures c !in Forbidden
    {
      if c in h {
        assert IsHexDigit(c);
      }
    }
  }

  /** Two vulnerabilities with different indexes get different sheet names,
      whatever their own names: no worksheet name is used twice. */
  lemma SheetNameInjective(i: nat, j: nat, a: string, b: string)
    ensures SheetName(i, a) == SheetName(j, b) ==> i == j
  {
    if SheetName(i, a) == SheetName(j, b) {
      var x, y := Hex3(i), Hex3(j);
      Hex3Spec(i);
      Hex3Spec(j);
      FirstUnderscore(x, Shorten(StripForbidden(a)));
      FirstUnderscore(y, Shorten(StripForbidden(b)));
      assert |x| == |y|;
      assert x == SheetName(i, a)[..|x|];
      assert y == SheetName(j, b)[..|y|];
      Hex3Injective(i, j);
    }
  }

  /** In a sheet name the first `_` is the one after the index. */
  lemma FirstUnderscore(h: string, body: string)
    requires forall c :: c in h ==> IsHexDigit(c)
    ensures (h + "_" + body)[|h|] == '_'
    ensures forall k :: 0 <= k < |h| ==> (h + "_" + body)[k] != '_'
  {
    forall k | 0 <= k < |h|
      ensures (h + "_" + body)[k] != '_'
    {
      assert h[k] in h;
    }
  }

  // ---------------------------------------------------------------
  // Ports
  // ---------------------------------------------------------------

  /** The host exporters' port label: `'general'` when there is no port or
      its number is 0, otherwise the decimal port number. */
  function PortLabel(p: PortOrNone): string
  {
    if p.NoPort? || p.port.number == 0 then "general" else Decimal(p.port.number)
  }

  /** The label is `'general'` exactly for a missing port or port 0;
      otherwise it is a string of decimal digits that reads back as the
      port number. */
  lemma PortLabelSpec(p: PortOrNone)
    ensures PortLabel(p) == "general" <==> p.NoPort? || p.port.number == 0
    ensures p.SomePort? && p.port.number != 0 ==>
              ValueIn(PortLabel(p), 10) == p.port.number
              && forall c :: c in PortLabel(p) ==> '0' <= c <= '9'
  {
    if p.SomePort? && p.port.number != 0 {
      DigitsRoundTrip(p.port.number, 10);
      assert 'g' in "general";
      assert 'g' !in PortLabel(p);
    }
  }

  /** What an Excel cell holds: text, or a number. */
  datatype Cell = TextCell(text: string) | NumberCell(number: nat)

  /** The port-number cell of a vulnerability sheet's host table: empty
      text for port 0, the number itself otherwise, `"No port info"`
      when the occurrence has no port. */
  function ExcelPortCell(p: PortOrNone): Cell
  {
    match p
    case NoPort => TextCell("No port info")
    case SomePort(port) => if port.number == 0 then TextCell("") else NumberCell(port.number)
  }

  /** The Excel cell is empty text exactly for port 0, `No port info` exactly
      for a missing port, and otherwise the port number itself. */
  lemma ExcelPortCellSpec(p: PortOrNone)
    ensures ExcelPortCell(p) == TextCell("") <==> p.SomePort? && p.port.number == 0
    ensures ExcelPortCell(p) == TextCell("No port info") <==> p.NoPort?
    ensures p.SomePort? && p.port.number != 0 ==> ExcelPortCell(p) == NumberCell(p.port.number)
  {
  }

  /** The port-number cell of a Word host table: `"-"` for port 0. */
  function WordPortCell(p: PortOrNone): string
  {
    match p
    case NoPort => "No port info"
    case SomePort(port) => if port.number == 0 then "-" else Decimal(port.number)
  }

  /** The Word cell reads `No port info` exactly for a missing port and
      `-` exactly for port 0; otherwise it is a string of decimal digits
      that reads back as the port number. */
  lemma WordPortCellSpec(p: PortOrNone)
    ensures WordPortCell(p) == "No port info" <==> p.NoPort?
    ensures WordPortCell(p) == "-" <==> p.SomePort? && p.port.number == 0
    ensures p.SomePort? && p.port.number != 0 ==>
              ValueIn(WordPortCell(p), 10) == p.port.number
              && forall c :: c in WordPortCell(p) ==> '0' <= c <= '9'
  {
    if p.SomePort? && p.port.number != 0 {
      DigitsRoundTrip(p.port.number, 10);
      assert 'N' in "No port info" && '-' in "-";
      assert 'N' !in WordPortCell(p) && '-' !in WordPortCell(p);
    }
  }

  /** The three renderings of a port agree: a number is shown exactly when
      there is a port numbered other than 0, and then it is the same
      number everywhere; a missing port and port 0 are told apart by both
      host tables. */
  lemma PortCellsAgree(p: PortOrNone)
    ensures ExcelPortCell(p).NumberCell? <==> PortLabel(p) != "general"
    ensures ExcelPortCell(p).NumberCell? ==>
              WordPortCell(p) == PortLabel(p) == Decimal(ExcelPortCell(p).number)
    ensures ExcelPortCell(p).NumberCell? ==> ExcelPortCell(p).number > 0
    ensures !ExcelPortCell(p).NumberCell? ==>
              (WordPortCell(p) == "No port info" <==> p.NoPort?)
              && (ExcelPortCell(p) == TextCell("No port info") <==> p.NoPort?)
  {
    PortLabelSpec(p);
  }

  // ---------------------------------------------------------------
  // Host name and CVE cells
  // ---------------------------------------------------------------

  /** `host_name if host_name else "-"`: the cell is never blank. */
  function HostNameCell(hostName: string): (r: string)
    ensures r != ""
    ensures hostName != "" ==> r == hostName
    ensures hostName == "" ==> r == "-"
  {
    if hostName != "" then hostName else "-"
  }

  /** The CVE cell: the CVE ids joined by `", "` and upper-cased, or
      `"No CVE"` when the join is empty. */
  function CveText(cves: seq<string>): string
  {
    var joined := Join(cves, ", ");
    if joined != "" then Upper(joined) else "No CVE"
  }

  /** `"No CVE"` is shown exactly when there is no CVE id (or only an empty
      one); otherwise the text is the join upper-cased, so no lower-case
      letter is left. */
  lemma CveTextSpec(cves: seq<string>)
    ensures CveText(cves) == "No CVE" <==> |cves| == 0 || cves == [""]
    ensures CveText(cves) != "No CVE" ==>
              |CveText(cves)| == |Join(cves, ", ")|
              && forall c :: c in CveText(cves) ==> !IsLower(c)
    ensures CveText(cves) != "No CVE" ==> CveText(cves) == Upper(Join(cves, ", "))
  {
    JoinEmpty(cves, ", ");
    var joined := Join(cves, ", ");
    if joined != "" {
      UpperSpec(joined);
      assert 'o' in "No CVE" && IsLower('o');
      assert 'o' !in CveText(cves);
    }
  }

  // ---------------------------------------------------------------
  // Host cap of the Excel host summary
  // ---------------------------------------------------------------

  /** Hosts shown in the summary chart: all of them, but never more than 10. */
  function MaxHosts(hostCount: nat): (m: nat)
    ensures m <= 10 && m <= hostCount
    ensures m == hostCount || m == 10
  {
    if hostCount < 10 then hostCount else 10
  }

  /** More hosts never show fewer rows. */
  lemma MaxHostsMonotone(a: nat, b: nat)
    requires a <= b
    ensures MaxHosts(a) <= MaxHosts(b)
  {
  }

  // ---------------------------------------------------------------
  // Port column of the host exporters
  // ---------------------------------------------------------------

  /** The port column of a host sheet as written: the first occurrence's
      port label, `/`, and that port's protocol. For a missing port the
      label rule picks `'general'`, but the protocol is then read from
      `None`, which raises `AttributeError`; an empty occurrence list
      raises `IndexError`. */
  function HostPortCellAsWritten(hosts: seq<Occurrence>): Outcome<string>
  {
    if |hosts| == 0 then Raised(IndexError)
    else match hosts[0].port
      case NoPort => Raised(AttributeError)
      case SomePort(port) => Ok(PortLabel(hosts[0].port) + "/" + port.protocol)
  }

  /** An occurrence without a port makes the host exporters fail, although
      the label rule has a branch for exactly that case. */
  lemma HostPortCellAsWrittenFailsWithoutPort()
    ensures var hosts := [Occurrence("192.0.2.1", "", NoPort)];
            PortLabel(hosts[0].port) == "general"
            && HostPortCellAsWritten(hosts) == Raised(AttributeError)
  {
  }

  /** The port column with the missing-port branch completed: `'general'`
      alone when there is no port, so no protocol is read from `None`. */
  function HostPortCell(hosts: seq<Occurrence>): Outcome<string>
  {
    if |hosts| == 0 then Raised(IndexError)
    else match hosts[0].port
      case NoPort => Ok(PortLabel(hosts[0].port))
      case SomePort(port) => Ok(PortLabel(hosts[0].port) + "/" + port.protocol)
  }

  /** The corrected column raises only for an empty occurrence list, always
      starts with the port label, and agrees with the code as written
      whenever the latter does not raise. */
  lemma HostPortCellSpec(hosts: seq<Occurrence>)
    ensures HostPortCell(hosts).Raised? <==> |hosts| == 0
    ensures |hosts| > 0 ==>
              |PortLabel(hosts[0].port)| <= |HostPortCell(hosts).value|
              && HostPortCell(hosts).value[..|PortLabel(hosts[0].port)|] == PortLabel(hosts[0].port)
    ensures HostPortCellAsWritten(hosts).Ok? ==> HostPortCell(hosts) == HostPortCellAsWritten(hosts)
    ensures HostPortCellAsWritten(hosts).Raised? && |hosts| > 0 ==>
              HostPortCellAsWritten(hosts).error == AttributeError && hosts[0].port.NoPort?
  {
    if |hosts| > 0 && hosts[0].port.SomePort? {
      var portLabel := PortLabel(hosts[0].port);
      assert HostPortCell(hosts).value == portLabel + ("/" + hosts[0].port.port.protocol);
    }
  }
}
