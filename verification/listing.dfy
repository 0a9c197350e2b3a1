/** The device map built from the text printed by the stand-alone scan: the
    captured standard output is cut into lines, table rows after the header
    line are read back into records, and the records are sorted by name. */
module Listing {
  import opened Wrappers
  import opened TextOps
  import opened Sorting
  import Discovery

  /** One mapped device. */
  datatype Mapped = Mapped(name: string, mac: string, ip: string)

  /** `'MAC Address' in line and 'Device Name' in line` */
  predicate IsHeader(line: string) {
    Contains(line, "MAC Address") && Contains(line, "Device Name")
  }

  /** `line.startswith('-')` */
  predicate IsRule(line: string) {
    |line| > 0 && line[0] == '-'
  }

  /** One line read in list mode: skipped when blank, a rule, or shorter
      than three tokens; otherwise the first token is the MAC address, the
      last the IP address and the rest, single-spaced, the name; records
      with an "Unknown" MAC address or a "None" name are dropped. */
  function ParseRow(line: string): (r: Option<Mapped>)
    ensures r.Some? ==> !IsBlank(line) && !IsRule(line)
    ensures r.Some? ==>
              && IsWord(r.value.mac) && IsWord(r.value.ip) && SingleSpaced(r.value.name)
              && Tokens(line) == [r.value.mac] + Tokens(r.value.name) + [r.value.ip]
              && r.value.mac != "Unknown" && r.value.name != "None"
    ensures var ts := Tokens(line);
            !IsBlank(line) && !IsRule(line) && |ts| >= 3
            && ts[0] != "Unknown" && Join(ts[1..|ts| - 1], " ") != "None"
            ==> r == Some(Mapped(Join(ts[1..|ts| - 1], " "), ts[0], ts[|ts| - 1]))
  {
    if IsBlank(line) || IsRule(line) then None
    else
      var ts := Tokens(line);
      if |ts| < 3 then None
      else
        var middle := ts[1..|ts| - 1];
        var rec := Mapped(Join(middle, " "), ts[0], ts[|ts| - 1]);
        if rec.mac == "Unknown" || rec.name == "None" then None
        else
          RowSplit(ts);
          Some(rec)
  }

  /** The tokens of a row are its first word, the tokens of its
      single-spaced middle, and its last word. */
  lemma RowSplit(ts: seq<string>)
    requires |ts| >= 3 && forall i :: 0 <= i < |ts| ==> IsWord(ts[i])
    ensures var middle := Join(ts[1..|ts| - 1], " ");
            && IsWord(ts[0]) && IsWord(ts[|ts| - 1]) && SingleSpaced(middle)
            && ts == [ts[0]] + Tokens(middle) + [ts[|ts| - 1]]
  {
    var middle := ts[1..|ts| - 1];
    JoinWordsSingleSpaced(middle);
    TokensOfJoin(middle);
    assert ts == [ts[0]] + middle + [ts[|ts| - 1]];
  }

  /** A table row written as single-spaced tokens is read back as the
      record it was written from. */
  lemma {:induction false} ParseRowOfTokens(mac: string, words: seq<string>, ip: string)
    requires IsWord(mac) && IsWord(ip) && mac[0] != '-'
    requires |words| > 0 && forall i :: 0 <= i < |words| ==> IsWord(words[i])
    requires mac != "Unknown" && Join(words, " ") != "None"
    ensures ParseRow(Join([mac] + words + [ip], " ")) == Some(Mapped(Join(words, " "), mac, ip))
  {
    var all := [mac] + words + [ip];
    forall i | 0 <= i < |all| ensures IsWord(all[i]) {
      if 0 < i < |all| - 1 { assert all[i] == words[i - 1]; }
    }
    TokensOfJoin(all);
    var line := Join(all, " ");
    assert all[1..] == words + [ip];
    assert line[0] == mac[0] by {
      assert line == mac + " " + Join(all[1..], " ");
    }
    if IsBlank(line) {
      BlankIffNoTokens(line);
    }
    assert all[1..|all| - 1] == words;
  }

  /** Some line of `lines` is a header. */
  predicate HeaderIn(lines: seq<string>) {
    exists i :: 0 <= i < |lines| && IsHeader(lines[i])
  }

  /** The module-level loop over the lines with its `in_device_list` flag;
      `row` reads one line in list mode. */
  function Scan(lines: seq<string>, inList: bool, row: string -> Option<Mapped>): (r: seq<Mapped>)
    decreases |lines|
  {
    if lines == [] then []
    else if IsHeader(lines[0]) then Scan(lines[1..], true, row)
    else (if inList && row(lines[0]).Some? then [row(lines[0]).value] else []) + Scan(lines[1..], inList, row)
  }

  /** Scanning a concatenation: the second part is scanned in list mode
      when the first part held a header. */
  lemma {:induction false} ScanAppend(a: seq<string>, b: seq<string>, inList: bool, row: string -> Option<Mapped>)
    ensures Scan(a + b, inList, row) == Scan(a, inList, row) + Scan(b, inList || HeaderIn(a), row)
    decreases |a|
  {
    if a == [] {
      assert a + b == b;
    } else {
      assert (a + b)[0] == a[0];
      assert (a + b)[1..] == a[1..] + b;
      var next := inList || IsHeader(a[0]);
      ScanAppend(a[1..], b, next, row);
      HeaderInCons(a);
    }
  }

  lemma HeaderInCons(a: seq<string>)
    requires a != []
    ensures HeaderIn(a) <==> IsHeader(a[0]) || HeaderIn(a[1..])
  {
    if HeaderIn(a[1..]) {
      var i :| 0 <= i < |a[1..]| && IsHeader(a[1..][i]);
      assert a[i + 1] == a[1..][i];
    }
    if HeaderIn(a) && !IsHeader(a[0]) {
      var i :| 0 <= i < |a| && IsHeader(a[i]);
      assert a[1..][i - 1] == a[i];
    }
  }

  /** Outside list mode, lines without a header give nothing. */
  lemma {:induction false} ScanBeforeHeader(lines: seq<string>, row: string -> Option<Mapped>)
    requires !HeaderIn(lines)
    ensures Scan(lines, false, row) == []
    decreases |lines|
  {
    if lines != [] {
      assert !IsHeader(lines[0]);
      forall i | 0 <= i < |lines[1..]| ensures !IsHeader(lines[1..][i]) {
        assert lines[1..][i] == lines[i + 1];
      }
      ScanBeforeHeader(lines[1..], row);
    }
  }

  /** No line up to and including the first header produces a record: the
      result is what the lines after that header give in list mode. */
  lemma NothingUpToFirstHeader(lines: seq<string>, h: nat, row: string -> Option<Mapped>)
    requires h < |lines| && IsHeader(lines[h]) && !HeaderIn(lines[..h])
    ensures Scan(lines, false, row) == Scan(lines[h + 1..], true, row)
  {
    var before, rest := lines[..h], lines[h..];
    assert lines == before + rest;
    ScanAppend(before, rest, false, row);
    ScanBeforeHeader(before, row);
    assert Scan(before + rest, false, row) == [] + Scan(rest, false, row);
    ScanHeaderFirst(rest, row);
    assert rest[1..] == lines[h + 1..];
  }

  lemma ScanHeaderFirst(lines: seq<string>, row: string -> Option<Mapped>)
    requires lines != [] && IsHeader(lines[0])
    ensures Scan(lines, false, row) == Scan(lines[1..], true, row)
  {
  }

  /** Every record comes from one line read in list mode, and each such
      line yields at most one record. */
  lemma {:induction false} ScanRecordsFromRows(lines: seq<string>, inList: bool, row: string -> Option<Mapped>)
    ensures |Scan(lines, inList, row)| <= |lines|
    ensures forall m :: m in Scan(lines, inList, row) ==>
              exists i :: 0 <= i < |lines| && !IsHeader(lines[i]) && row(lines[i]) == Some(m)
    decreases |lines|
  {
    if lines != [] {
      ScanRecordsFromRows(lines[1..], inList || IsHeader(lines[0]), row);
      forall m | m in Scan(lines[1..], inList || IsHeader(lines[0]), row)
        ensures exists i :: 0 <= i < |lines| && !IsHeader(lines[i]) && row(lines[i]) == Some(m)
      {
        var i :| 0 <= i < |lines[1..]| && !IsHeader(lines[1..][i]) && row(lines[1..][i]) == Some(m);
        assert lines[i + 1] == lines[1..][i];
      }
    }
  }

  /** One line of the scan, read at position `i`: the records found so far
      and those still to come keep adding up to the whole scan. */
  lemma ScanLinesStep(lines: seq<string>, i: nat, inList: bool, row: string -> Option<Mapped>, found: seq<Mapped>)
    requires i < |lines|
    requires found + Scan(lines[i..], inList, row) == Scan(lines, false, row)
    ensures var line := lines[i];
            var found' := if !IsHeader(line) && inList && row(line).Some? then found + [row(line).value] else found;
            found' + Scan(lines[i + 1..], inList || IsHeader(line), row) == Scan(lines, false, row)
  {
    assert lines[i..][1..] == lines[i + 1..];
  }

  /** The sort key `x['name'].lower()`. */
  function NameKey(m: Mapped): string {
    Lower(m.name)
  }

  /** The loop over the lines, with the `in_device_list` flag; `row` reads
      one line in list mode. */
  method ScanLines(lines: seq<string>, row: string -> Option<Mapped>) returns (found: seq<Mapped>)
    ensures found == Scan(lines, false, row)
  {
    found := [];
    var inList := false;
    var i := 0;
    while i < |lines|
      invariant 0 <= i <= |lines|
      invariant found + Scan(lines[i..], inList, row) == Scan(lines, false, row)
    {
      var line := lines[i];
      ScanLinesStep(lines, i, inList, row, found);
      if IsHeader(line) {
        inList := true;
      } else if inList {
        var r := row(line);
        if r.Some? {
          found := found + [r.value];
        }
      }
      i := i + 1;
    }
  }

  /** The script from the captured output to the sorted device list.
      `stdout` is the text as captured in text mode, so carriage returns
      are already newlines (`TranslateNewlines`).  The script reads rows
      with `ParseRow`; `ParseRowChecked` is the reader it evidently intends
      (see `OutputReadBack`). */
  method MapDevices(stdout: string, row: string -> Option<Mapped>) returns (devices: seq<Mapped>)
    ensures var rows := Scan(Split(stdout, '\n'), false, row);
            && multiset(devices) == multiset(rows)
            && SortedBy(devices, NameKey)
            && forall k :: WithKey(devices, NameKey, k) == WithKey(rows, NameKey, k)
  {
    var found := ScanLines(Split(stdout, '\n'), row);
    SortByStableAll(found, NameKey);
    devices := SortBy(found, NameKey);
  }

  // ---------------------------------------------------------------------------
  // The text the parser reads: what the stand-alone scan's `main` prints
  // ---------------------------------------------------------------------------

  /** One device as `main` prints it: `str` of its MAC address, alias and
      IP address. */
  datatype Shown = Shown(mac: string, alias: string, ip: string)

  function Show(e: Discovery.Entry): (d: Shown)
    ensures d.ip == e.ip
    ensures e.mac.JStr? ==> d.mac == e.mac.s
  {
    Shown(Discovery.Str(e.mac), Discovery.Str(e.alias), e.ip)
  }

  /** `c * n` for a one-character string `c`. */
  function Repeat(c: char, n: nat): (s: string)
    ensures |s| == n && forall i :: 0 <= i < n ==> s[i] == c
  {
    if n == 0 then [] else [c] + Repeat(c, n - 1)
  }

  function Spaces(n: nat): (s: string)
    ensures |s| == n && IsBlank(s)
  {
    Repeat(' ', n)
  }

  /** `f"{s:<w}"`: left-aligned, padded with spaces to width `w`. */
  function Pad(s: string, w: nat): (r: string)
    ensures |r| == if |s| < w then w else |s|
    ensures r[..|s|] == s && IsBlank(r[|s|..])
  {
    if |s| < w then s + Spaces(w - |s|) else s
  }

  /** `f"{mac:<20} {alias:<35} {ip}"` */
  function Row(mac: string, alias: string, ip: string): string {
    Pad(mac, 20) + " " + Pad(alias, 35) + " " + ip
  }

  const HeaderLine: string := Row("MAC Address", "Device Name", "IP Address")
  const RuleLine: string := Repeat('-', 80)
  const BarLine: string := Repeat('=', 80)
  const Tick: string := "\U{2713}"
  const Cross: string := "\U{2717}"
  const FoundRest: string := " FOUND" + " TARGET" + " DEVICE!"
  const FoundBanner: string := Tick + FoundRest
  const PassedRest: string := " TEST" + " PASSED:" + " Name" + " matches" + " 'office" + " sconce" + " left'"
  const PassedLine: string := "  " + Tick + PassedRest
  /** The words between the cross mark and "found" in the "not found"
      banner. */
  const MissingName: seq<string> := ["Device", "with", "MAC", Discovery.TargetMac, "not"]
  const MissingLine: string := Join([Cross] + MissingName + ["found"], " ")

  /** The name verdict printed for a target device. */
  function VerdictLine(alias: string): string {
    if Discovery.IsTargetName(alias) then PassedLine
    else "  " + "!" + MismatchRest(alias)
  }

  /** What follows the `!` of the verdict for a wrong name. */
  function MismatchRest(alias: string): string {
    " Name is '" + alias + "', expected '" + Discovery.TargetName + "'"
  }

  /** The lines printed for one device: its row, followed by the banner
      when its MAC address is the target's. */
  function DeviceLines(d: Shown): (ls: seq<string>)
    ensures |ls| > 0 && ls[0] == Row(d.mac, d.alias, d.ip)
    ensures |ls| == if Discovery.IsTargetMac(d.mac) then 10 else 1
    ensures Discovery.IsTargetMac(d.mac) ==> ls[3] == FoundBanner && ls[4] == "  Name: " + d.alias
  {
    [Row(d.mac, d.alias, d.ip)] + (if Discovery.IsTargetMac(d.mac) then Banner(d) else [])
  }

  /** The block announcing the target device. */
  function Banner(d: Shown): seq<string> {
    ["", BarLine, FoundBanner, "  Name: " + d.alias, "  MAC:  " + d.mac, "  IP:   " + d.ip,
     VerdictLine(d.alias), BarLine, ""]
  }

  function Body(shown: seq<Shown>): seq<string>
    decreases |shown|
  {
    if shown == [] then [] else DeviceLines(shown[0]) + Body(shown[1..])
  }

  predicate AnyTarget(shown: seq<Shown>) {
    exists i :: 0 <= i < |shown| && Discovery.IsTargetMac(shown[i].mac)
  }

  /** The lines of `main`'s output after the scan's own progress lines,
      ending with the empty piece after the final newline. */
  function MainLines(shown: seq<Shown>): (ls: seq<string>)
    ensures |ls| >= 5 && ls[2] == HeaderLine && ls[3] == RuleLine && ls[|ls| - 1] == ""
    ensures !AnyTarget(shown) ==> ls[|ls| - 2] == MissingLine
  {
    Head(|shown|) + Body(shown) + Tail(shown)
  }

  /** The table head: the blank line, the count, the column header and
      the rule. */
  function Head(n: nat): seq<string> {
    ["", "Found " + Discovery.DecimalText(n) + " devices:", HeaderLine, RuleLine]
  }

  /** What follows the table: the "not found" banner unless a target was
      listed, then the empty piece after the final newline. */
  function Tail(shown: seq<Shown>): seq<string> {
    (if AnyTarget(shown) then [] else ["", MissingLine]) + [""]
  }

  // ---------------------------------------------------------------------------
  // Reading that text back
  // ---------------------------------------------------------------------------

  /** The shape of a MAC address: six two-digit hex groups joined by
      colons. */
  predicate IsMacAddress(s: string) {
    && |s| == 17
    && forall i :: 0 <= i < 17 ==>
         if i % 3 == 2 then s[i] == ':'
         else ('0' <= s[i] <= '9') || ('a' <= s[i] <= 'f') || ('A' <= s[i] <= 'F')
  }

  /** The row reader with a MAC-address check on the first token. */
  function ParseRowChecked(line: string): (r: Option<Mapped>)
    ensures r.Some? ==> ParseRow(line) == r && IsMacAddress(r.value.mac)
    ensures ParseRow(line).Some? && IsMacAddress(ParseRow(line).value.mac) ==> r == ParseRow(line)
  {
    match ParseRow(line)
    case Some(m) => if IsMacAddress(m.mac) then Some(m) else None
    case None => None
  }

  /** The records the printed table stands for: one per device with a MAC
      address, a non-blank alias whose words do not spell "None", and its
      alias re-spaced as the reader will see it. */
  function Expected(shown: seq<Shown>): (ms: seq<Mapped>)
    ensures |ms| <= |shown|
    decreases |shown|
  {
    if shown == [] then [] else ExpectedOf(shown[0]) + Expected(shown[1..])
  }

  function ExpectedOf(d: Shown): (ms: seq<Mapped>)
    ensures |ms| <= 1
  {
    var words := Tokens(d.alias);
    if IsMacAddress(d.mac) && words != [] && Join(words, " ") != "None"
    then [Mapped(Join(words, " "), d.mac, d.ip)] else []
  }

  /** Padding adds no token. */
  lemma PadTokens(s: string, w: nat)
    ensures Tokens(Pad(s, w)) == Tokens(s)
  {
    var p := Pad(s, w);
    var sp := p[|s|..];
    assert p == s + sp;
    BlankIffNoTokens(sp);
    if sp != [] {
      assert IsSpace(sp[0]);
    }
    TokensAppend(s, sp);
  }

  /** A leading space adds no token. */
  lemma SpaceThenTokens(x: string)
    ensures Tokens(" " + x) == Tokens(x)
  {
    BlankIffNoTokens(" ");
    TokensAppend(" ", x);
  }

  /** The tokens of a table row are the MAC address, the alias's words and
      the IP address. */
  lemma RowTokens(mac: string, alias: string, ip: string)
    requires IsWord(mac) && IsWord(ip)
    ensures Tokens(Row(mac, alias, ip)) == [mac] + Tokens(alias) + [ip]
  {
    var pm := Pad(mac, 20);
    var mid := " " + (Pad(alias, 35) + (" " + ip));
    assert Row(mac, alias, ip) == pm + mid;
    TokensAppend(pm, mid);
    PadTokens(mac, 20);
    TokensOfWord(mac);
    AliasAndIpTokens(alias, ip);
  }

  lemma AliasAndIpTokens(alias: string, ip: string)
    requires IsWord(ip)
    ensures Tokens(" " + (Pad(alias, 35) + (" " + ip))) == Tokens(alias) + [ip]
  {
    var pa, tail := Pad(alias, 35), " " + ip;
    SpaceThenTokens(pa + tail);
    TokensAppend(pa, tail);
    PadTokens(alias, 35);
    SpaceThenTokens(ip);
    TokensOfWord(ip);
  }

  /** The corrected reader turns a device's row into the expected record. */
  lemma RowReadBack(d: Shown)
    requires IsWord(d.mac) && IsWord(d.ip)
    ensures var words := Tokens(d.alias);
            ParseRowChecked(Row(d.mac, d.alias, d.ip))
            == if IsMacAddress(d.mac) && words != [] && Join(words, " ") != "None"
               then Some(Mapped(Join(words, " "), d.mac, d.ip)) else None
  {
    var line := Row(d.mac, d.alias, d.ip);
    var words := Tokens(d.alias);
    RowTokens(d.mac, d.alias, d.ip);
    assert line[0] == d.mac[0];
    if IsBlank(line) {
      BlankIffNoTokens(line);
    }
    var ts := Tokens(line);
    assert ts[1..|ts| - 1] == words;
  }

  /** A line whose first token is not a MAC address yields nothing. */
  lemma NotMacFirst(line: string, sp: string, w: string, rest: string)
    requires line == sp + w + rest
    requires IsBlank(sp) && IsWord(w) && (rest == [] || IsSpace(rest[0]))
    requires !IsMacAddress(w)
    ensures ParseRowChecked(line) == None
  {
    FirstToken(sp, w, rest);
  }

  /** Lines without the letter 'r' are never headers. */
  lemma NoRNoHeader(line: string)
    requires 'r' !in line
    ensures !IsHeader(line)
  {
    AbsentCharNotSubstring("MAC Address", line, 'r');
  }

  /** A line that the corrected reader passes over inside the table: not
      a header, and no record. */
  predicate Inert(line: string) {
    !IsHeader(line) && ParseRowChecked(line) == None
  }

  /** A line made of optional blanks, one word that is not a MAC address
      and anything starting with a space is inert when it has no 'r'. */
  lemma LabelledLine(line: string, sp: string, w: string, rest: string)
    requires line == sp + w + rest
    requires IsBlank(sp) && IsWord(w) && (rest == [] || IsSpace(rest[0]))
    requires !IsMacAddress(w)
    requires 'r' !in line
    ensures Inert(line)
  {
    NotMacFirst(line, sp, w, rest);
    NoRNoHeader(line);
  }

  lemma EmptyLineInert()
    ensures Inert("")
  {
    NoRNoHeader("");
    BlankIffNoTokens("");
  }

  lemma PassedLineInert()
    ensures Inert(PassedLine)
  {
    LabelledLine(PassedLine, "  ", Tick, PassedRest);
  }

  lemma {:induction false} NotInJoin(c: char, parts: seq<string>, sep: string)
    requires c !in sep
    requires forall i :: 0 <= i < |parts| ==> c !in parts[i]
    ensures c !in Join(parts, sep)
    decreases |parts|
  {
    if |parts| > 1 {
      forall i | 0 <= i < |parts[1..]| ensures c !in parts[1..][i] {
        assert parts[1..][i] == parts[i + 1];
      }
      NotInJoin(c, parts[1..], sep);
      assert c !in parts[0];
    }
  }

  /** Words joined by single spaces are inert when the first is not a MAC
      address and none holds an 'r'. */
  lemma JoinedLineInert(parts: seq<string>)
    requires |parts| > 0 && !IsMacAddress(parts[0])
    requires forall i :: 0 <= i < |parts| ==> IsWord(parts[i]) && 'r' !in parts[i]
    ensures Inert(Join(parts, " "))
  {
    var line := Join(parts, " ");
    TokensOfJoin(parts);
    NotInJoin('r', parts, " ");
    NoRNoHeader(line);
  }

  lemma TargetMacIsWord()
    ensures IsWord(Discovery.TargetMac)
  {
    forall i | 0 <= i < |Discovery.TargetMac| ensures !IsSpace(Discovery.TargetMac[i]) {
      assert Discovery.TargetMac[i] == ':' || '0' <= Discovery.TargetMac[i] <= 'F';
    }
  }

  lemma MissingLineInert()
    ensures Inert(MissingLine)
  {
    var parts := [Cross] + MissingName + ["found"];
    TargetMacIsWord();
    forall i | 0 <= i < |parts| ensures IsWord(parts[i]) && 'r' !in parts[i] {
    }
    JoinedLineInert(parts);
  }

  /** The banner lines that quote a device's fields are not rows either:
      their first token is a label. */
  lemma FieldLinesReadNothing(d: Shown)
    ensures ParseRowChecked("  Name: " + d.alias) == None
    ensures ParseRowChecked("  MAC:  " + d.mac) == None
    ensures ParseRowChecked("  IP:   " + d.ip) == None
    ensures ParseRowChecked(VerdictLine(d.alias)) == None
  {
    LabelReadsNothing("  ", "Name:", " " + d.alias);
    assert "  Name: " + d.alias == "  " + "Name:" + (" " + d.alias);
    LabelReadsNothing("  ", "MAC:", "  " + d.mac);
    assert "  MAC:  " + d.mac == "  " + "MAC:" + ("  " + d.mac);
    LabelReadsNothing("  ", "IP:", "   " + d.ip);
    assert "  IP:   " + d.ip == "  " + "IP:" + ("   " + d.ip);
    VerdictLineReadsNothing(d.alias);
  }

  /** A short label word that is not a MAC address, between blanks, makes
      the line no row. */
  lemma LabelReadsNothing(sp: string, w: string, rest: string)
    requires IsBlank(sp) && IsWord(w) && |w| < 17 && rest != [] && IsSpace(rest[0])
    ensures ParseRowChecked(sp + w + rest) == None
  {
    NotMacFirst(sp + w + rest, sp, w, rest);
  }

  lemma VerdictLineReadsNothing(alias: string)
    ensures ParseRowChecked(VerdictLine(alias)) == None
  {
    if Discovery.IsTargetName(alias) {
      PassedLineInert();
    } else {
      NotMacFirst(VerdictLine(alias), "  ", "!", MismatchRest(alias));
    }
  }

  /** Every banner line is inert, provided none of them is a header (the
      ones quoting the device's fields could be). */
  lemma BannerInert(d: Shown)
    requires !HeaderIn(Banner(d))
    ensures forall i :: 0 <= i < |Banner(d)| ==> Inert(Banner(d)[i])
  {
    forall i | 0 <= i < |Banner(d)| ensures Inert(Banner(d)[i]) {
      BannerLineReadsNothing(d, i);
    }
  }

  lemma EmptyLineReadsNothing()
    ensures ParseRowChecked("") == None
  {
    BlankIffNoTokens("");
  }

  lemma BarLineReadsNothing()
    ensures ParseRowChecked(BarLine) == None
  {
    NotMacFirst(BarLine, "", BarLine, "");
  }

  lemma FoundBannerReadsNothing()
    ensures ParseRowChecked(FoundBanner) == None
  {
    NotMacFirst(FoundBanner, "", Tick, FoundRest);
  }

  lemma BannerLineReadsNothing(d: Shown, i: nat)
    requires i < |Banner(d)|
    ensures ParseRowChecked(Banner(d)[i]) == None
  {
    var b := Banner(d);
    if i == 0 || i == 8 {
      assert b[i] == "";
      EmptyLineReadsNothing();
    } else if i == 1 || i == 7 {
      assert b[i] == BarLine;
      BarLineReadsNothing();
    } else if i == 2 {
      assert b[i] == FoundBanner;
      FoundBannerReadsNothing();
    } else {
      FieldLinesReadNothing(d);
      if i == 3 {
        assert b[i] == "  Name: " + d.alias;
      } else if i == 4 {
        assert b[i] == "  MAC:  " + d.mac;
      } else if i == 5 {
        assert b[i] == "  IP:   " + d.ip;
      } else {
        assert b[i] == VerdictLine(d.alias);
      }
    }
  }

  /** None of the lines printed for a device after its row yields a record
      under the corrected reader. */
  lemma BannerReadsNothing(d: Shown)
    requires !HeaderIn(DeviceLines(d))
    ensures Scan(DeviceLines(d)[1..], true, ParseRowChecked) == []
  {
    var ls := DeviceLines(d)[1..];
    if Discovery.IsTargetMac(d.mac) {
      assert ls == Banner(d);
      assert !HeaderIn(Banner(d)) by {
        forall i | 0 <= i < |ls| ensures !IsHeader(ls[i]) {
          assert ls[i] == DeviceLines(d)[i + 1];
        }
      }
      BannerInert(d);
      ScanNothing(ls);
    } else {
      assert ls == [];
    }
  }

  lemma HeaderLineIsHeader()
    ensures IsHeader(HeaderLine)
  {
    var pm, pa := Pad("MAC Address", 20), Pad("Device Name", 35);
    var tail := " " + "IP Address";
    assert HeaderLine == pm + " " + pa + tail;
    assert HeaderLine[0..11] == pm[..11] == "MAC Address";
    ContainsAt(HeaderLine, "MAC Address", 0);
    assert HeaderLine[21..32] == pa[..11] == "Device Name";
    ContainsAt(HeaderLine, "Device Name", 21);
  }

  lemma CountLineInert(n: nat)
    ensures Inert("Found " + Discovery.DecimalText(n) + " devices:")
  {
    var t := Discovery.DecimalText(n);
    var line := "Found " + t + " devices:";
    assert 'r' !in t by {
      forall i | 0 <= i < |t| ensures t[i] != 'r' {
        assert IsDigitChar(t[i]) || t[i] == '-';
      }
    }
    LabelledLine(line, "", "Found", " " + t + " devices:");
  }

  lemma RuleLineInert()
    ensures Inert(RuleLine)
  {
    NoRNoHeader(RuleLine);
  }

  /** Lines in front that are not headers, and give no record when read
      in list mode, change nothing. */
  lemma {:induction false} ScanSkip(pre: seq<string>, rest: seq<string>, inList: bool, row: string -> Option<Mapped>)
    requires forall i :: 0 <= i < |pre| ==> !IsHeader(pre[i]) && (inList ==> row(pre[i]).None?)
    ensures Scan(pre + rest, inList, row) == Scan(rest, inList, row)
    decreases |pre|
  {
    if pre != [] {
      assert (pre + rest)[0] == pre[0];
      assert (pre + rest)[1..] == pre[1..] + rest;
      forall i | 0 <= i < |pre[1..]| ensures !IsHeader(pre[1..][i]) && (inList ==> row(pre[1..][i]).None?) {
        assert pre[1..][i] == pre[i + 1];
      }
      ScanSkip(pre[1..], rest, inList, row);
      assert Scan(pre + rest, inList, row) == [] + Scan(pre[1..] + rest, inList, row);
    } else {
      assert pre + rest == rest;
    }
  }

  /** Inert lines give nothing in list mode. */
  lemma ScanNothing(lines: seq<string>)
    requires forall i :: 0 <= i < |lines| ==> Inert(lines[i])
    ensures Scan(lines, true, ParseRowChecked) == []
  {
    ScanSkip(lines, [], true, ParseRowChecked);
    assert lines + [] == lines;
  }

  /** Reading the head outside list mode gives nothing and switches list
      mode on, for any row reader that skips the rule line. */
  lemma HeadReadsNothing(n: nat, rest: seq<string>, row: string -> Option<Mapped>)
    requires row(RuleLine).None?
    ensures Scan(Head(n) + rest, false, row) == Scan(rest, true, row)
  {
    var count := "Found " + Discovery.DecimalText(n) + " devices:";
    var afterHeader := [RuleLine] + rest;
    var fromHeader := [HeaderLine] + afterHeader;
    assert Head(n) + rest == ["", count] + fromHeader;
    EmptyLineInert();
    CountLineInert(n);
    ScanSkip(["", count], fromHeader, false, row);
    HeaderLineIsHeader();
    ScanHeaderFirst(fromHeader, row);
    assert fromHeader[1..] == afterHeader;
    RuleLineInert();
    ScanSkip([RuleLine], rest, true, row);
  }

  /** One device's lines read back as its expected record. */
  lemma DeviceReadBack(d: Shown)
    requires Printable(d)
    ensures Scan(DeviceLines(d), true, ParseRowChecked) == ExpectedOf(d)
  {
    var ls := DeviceLines(d);
    assert !IsHeader(ls[0]);
    BannerReadsNothing(d);
    RowReadBack(d);
  }

  /** Each device's lines read back as its expected record. */
  lemma {:induction false} BodyReadBack(shown: seq<Shown>)
    requires forall i :: 0 <= i < |shown| ==> Printable(shown[i])
    ensures Scan(Body(shown), true, ParseRowChecked) == Expected(shown)
    decreases |shown|
  {
    if shown != [] {
      ScanAppend(DeviceLines(shown[0]), Body(shown[1..]), true, ParseRowChecked);
      DeviceReadBack(shown[0]);
      forall i | 0 <= i < |shown[1..]| ensures Printable(shown[1..][i]) {
        assert shown[1..][i] == shown[i + 1];
      }
      BodyReadBack(shown[1..]);
    }
  }

  lemma TailReadsNothing(shown: seq<Shown>)
    ensures Scan(Tail(shown), true, ParseRowChecked) == []
  {
    var t := Tail(shown);
    EmptyLineInert();
    MissingLineInert();
    forall i | 0 <= i < |t| ensures Inert(t[i]) {
    }
    ScanNothing(t);
  }

  /** A device `main` can print so that it reads back: its MAC and IP
      address are single words, its alias holds neither a newline nor a
      carriage return (which the captured text turns into a newline), and
      nothing printed for it looks like the column header. */
  predicate Printable(d: Shown) {
    IsWord(d.mac) && IsWord(d.ip) && NoBreak(d.alias) && !HeaderIn(DeviceLines(d))
  }

  /** Whatever the scan printed before the table, the corrected reader
      recovers from `main`'s output exactly one record per printed device
      that has a MAC address and a name, in printing order. */
  lemma MainLinesReadBack(before: seq<string>, shown: seq<Shown>)
    requires !HeaderIn(before)
    requires forall i :: 0 <= i < |shown| ==> Printable(shown[i])
    ensures Scan(before + MainLines(shown), false, ParseRowChecked) == Expected(shown)
  {
    var row: string -> Option<Mapped> := ParseRowChecked;
    var body, tail := Body(shown), Tail(shown);
    var printed := MainLines(shown);
    assert printed == Head(|shown|) + (body + tail);
    ScanAppend(before, printed, false, row);
    ScanBeforeHeader(before, row);
    assert Scan(before + printed, false, row) == [] + Scan(printed, false, row);
    RuleLineInert();
    HeadReadsNothing(|shown|, body + tail, row);
    ScanAppend(body, tail, true, row);
    BodyReadBack(shown);
    TailReadsNothing(shown);
    assert Scan(body + tail, true, row) == Expected(shown) + [];
  }

  // ---------------------------------------------------------------------------
  // From printed lines to the captured text
  // ---------------------------------------------------------------------------

  /** A character that ends a line of the captured text: a newline, or a
      carriage return, which text mode turns into one. */
  predicate IsBreak(c: char) {
    c == '\n' || c == '\r'
  }

  predicate NoBreak(s: string) {
    '\n' !in s && '\r' !in s
  }

  /** Each field is printed on the line it belongs to. */
  predicate OnOneLine(d: Shown) {
    NoBreak(d.mac) && NoBreak(d.alias) && NoBreak(d.ip)
  }

  predicate NoLineBreaks(lines: seq<string>) {
    forall i :: 0 <= i < |lines| ==> NoBreak(lines[i])
  }

  /** No field of `d` holds `c`. */
  predicate FieldsFree(c: char, d: Shown) {
    c !in d.mac && c !in d.alias && c !in d.ip
  }

  /** No line holds `c`. */
  predicate LinesFree(c: char, lines: seq<string>) {
    forall i :: 0 <= i < |lines| ==> c !in lines[i]
  }

  lemma WordOnOneLine(w: string)
    requires IsWord(w)
    ensures NoBreak(w)
  {
    forall i | 0 <= i < |w| ensures !IsBreak(w[i]) {
      assert !IsSpace(w[i]);
    }
  }

  lemma PrintableOnOneLine(d: Shown)
    requires Printable(d)
    ensures OnOneLine(d)
  {
    WordOnOneLine(d.mac);
    WordOnOneLine(d.ip);
  }

  lemma RowOnOneLine(c: char, mac: string, alias: string, ip: string)
    requires IsBreak(c) && c !in mac && c !in alias && c !in ip
    ensures c !in Row(mac, alias, ip)
  {
    assert c !in Spaces(20) && c !in Spaces(35);
    assert c !in Pad(mac, 20) && c !in Pad(alias, 35);
  }

  lemma DeviceLinesOnOneLine(c: char, d: Shown)
    requires IsBreak(c) && FieldsFree(c, d)
    ensures LinesFree(c, DeviceLines(d))
  {
    RowOnOneLine(c, d.mac, d.alias, d.ip);
    if Discovery.IsTargetMac(d.mac) {
      BannerOnOneLine(c, d);
    }
  }

  lemma BannerOnOneLine(c: char, d: Shown)
    requires IsBreak(c) && FieldsFree(c, d)
    ensures LinesFree(c, Banner(d))
  {
    BannerLiteralsOnOneLine(c);
    VerdictOnOneLine(c, d.alias);
    var b := Banner(d);
    forall i | 0 <= i < |b| ensures c !in b[i] {
      if i == 3 {
        assert b[3] == "  Name: " + d.alias;
      } else if i == 4 {
        assert b[4] == "  MAC:  " + d.mac;
      } else if i == 5 {
        assert b[5] == "  IP:   " + d.ip;
      }
    }
  }

  lemma BannerLiteralsOnOneLine(c: char)
    requires IsBreak(c)
    ensures c !in BarLine && c !in FoundBanner && c !in PassedLine
  {
    RepeatOnOneLine(c, '=', 80);
    FoundBannerOnOneLine(c);
    PassedLineOnOneLine(c);
  }

  lemma FoundBannerOnOneLine(c: char)
    requires IsBreak(c)
    ensures c !in FoundBanner
  {
    assert c !in Tick;
    assert c !in FoundRest;
  }

  lemma PassedLineOnOneLine(c: char)
    requires IsBreak(c)
    ensures c !in PassedLine
  {
    assert c !in Tick;
    assert c !in PassedRest;
  }

  lemma RepeatOnOneLine(c: char, x: char, n: nat)
    requires x != c
    ensures c !in Repeat(x, n)
  {
    var s := Repeat(x, n);
    forall i | 0 <= i < |s| ensures s[i] != c {
    }
  }

  lemma VerdictOnOneLine(c: char, alias: string)
    requires IsBreak(c) && c !in alias
    ensures c !in VerdictLine(alias)
  {
    if Discovery.IsTargetName(alias) {
      PassedLineOnOneLine(c);
    } else {
      MismatchOnOneLine(c, alias);
      assert c !in "  " + "!";
    }
  }

  lemma MismatchOnOneLine(c: char, alias: string)
    requires IsBreak(c) && c !in alias
    ensures c !in MismatchRest(alias)
  {
    assert c !in " Name is '" && c !in "', expected '" && c !in "'";
    assert c !in Discovery.TargetName;
  }

  lemma {:induction false} BodyOnOneLine(c: char, shown: seq<Shown>)
    requires IsBreak(c) && forall i :: 0 <= i < |shown| ==> FieldsFree(c, shown[i])
    ensures LinesFree(c, Body(shown))
    decreases |shown|
  {
    if shown != [] {
      DeviceLinesOnOneLine(c, shown[0]);
      assert forall i :: 0 <= i < |shown[1..]| ==> shown[1..][i] == shown[i + 1];
      BodyOnOneLine(c, shown[1..]);
    }
  }

  lemma HeadOnOneLine(c: char, n: nat)
    requires IsBreak(c)
    ensures LinesFree(c, Head(n))
  {
    CountLineOnOneLine(c, n);
    HeaderLineOnOneLine(c);
    RepeatOnOneLine(c, '-', 80);
    var h := Head(n);
    assert h[1] == "Found " + Discovery.DecimalText(n) + " devices:";
    assert h[2] == HeaderLine && h[3] == RuleLine;
  }

  lemma HeaderLineOnOneLine(c: char)
    requires IsBreak(c)
    ensures c !in HeaderLine
  {
    RowOnOneLine(c, "MAC Address", "Device Name", "IP Address");
  }

  lemma CountLineOnOneLine(c: char, n: nat)
    requires IsBreak(c)
    ensures c !in "Found " + Discovery.DecimalText(n) + " devices:"
  {
    var t := Discovery.DecimalText(n);
    forall i | 0 <= i < |t| ensures t[i] != c {
      assert IsDigitChar(t[i]) || t[i] == '-';
    }
  }

  lemma TailOnOneLine(c: char, shown: seq<Shown>)
    requires IsBreak(c)
    ensures LinesFree(c, Tail(shown))
  {
    var parts := [Cross] + MissingName + ["found"];
    TargetMacIsWord();
    WordOnOneLine(Discovery.TargetMac);
    NotInJoin(c, parts, " ");
  }

  lemma MainLinesFree(c: char, shown: seq<Shown>)
    requires IsBreak(c) && forall i :: 0 <= i < |shown| ==> FieldsFree(c, shown[i])
    ensures LinesFree(c, MainLines(shown))
  {
    HeadOnOneLine(c, |shown|);
    BodyOnOneLine(c, shown);
    TailOnOneLine(c, shown);
  }

  /** Everything `main` prints after the scan stays on the lines the model
      gives it when no field holds a line break. */
  lemma MainLinesOnOneLine(shown: seq<Shown>)
    requires forall i :: 0 <= i < |shown| ==> OnOneLine(shown[i])
    ensures NoLineBreaks(MainLines(shown))
  {
    MainLinesFree('\n', shown);
    MainLinesFree('\r', shown);
  }

  /** The captured output, translated by text mode and cut at newlines,
      gives back the printed lines, the last one being the empty piece
      after the final newline. */
  lemma SplitPrinted(before: seq<string>, shown: seq<Shown>)
    requires NoLineBreaks(before)
    requires forall i :: 0 <= i < |shown| ==> OnOneLine(shown[i])
    ensures Split(TranslateNewlines(Join(before + MainLines(shown), "\n")), '\n') == before + MainLines(shown)
  {
    MainLinesOnOneLine(shown);
    var lines := before + MainLines(shown);
    assert NoLineBreaks(lines);
    NotInJoin('\r', lines, "\n");
    SplitOfJoin(lines, '\n');
  }

  /** The captured standard output of a scan, read with the corrected row
      reader: one record per printed device with a MAC address and a name,
      in printing order. */
  lemma OutputReadBack(before: seq<string>, shown: seq<Shown>)
    requires NoLineBreaks(before) && !HeaderIn(before)
    requires forall i :: 0 <= i < |shown| ==> Printable(shown[i])
    ensures Scan(Split(TranslateNewlines(Join(before + MainLines(shown), "\n")), '\n'), false, ParseRowChecked) == Expected(shown)
  {
    forall i | 0 <= i < |shown| ensures OnOneLine(shown[i]) {
      PrintableOnOneLine(shown[i]);
    }
    SplitPrinted(before, shown);
    MainLinesReadBack(before, shown);
  }

  // ---------------------------------------------------------------------------
  // The reader as written
  // ---------------------------------------------------------------------------

  /** The reader as written takes the "not found" banner for a device row:
      its first word, a cross mark, becomes the MAC address. */
  lemma AsWrittenReadsMissingLine()
    ensures ParseRow(MissingLine) == Some(Mapped(Join(MissingName, " "), Cross, "found"))
  {
    TargetMacIsWord();
    forall i | 0 <= i < |MissingName| ensures IsWord(MissingName[i]) {
    }
    ParseRowOfTokens(Cross, MissingName, "found");
  }

  /** The reader as written also takes the banner announcing the target
      for a device row. */
  lemma AsWrittenReadsFoundBanner()
    ensures ParseRow(FoundBanner) == Some(Mapped("FOUND TARGET", Tick, "DEVICE!"))
  {
    var words := ["FOUND", "TARGET"];
    JoinFoundBanner();
    assert Join(words, " ") == "FOUND TARGET";
    ParseRowOfTokens(Tick, words, "DEVICE!");
  }

  /** A line not starting with `-` whose tokens are known is read, as
      written, from its first, middle and last tokens. */
  lemma ParseRowOfTokenList(line: string, ts: seq<string>)
    requires Tokens(line) == ts && |ts| >= 3
    requires line != [] && line[0] != '-'
    requires ts[0] != "Unknown" && Join(ts[1..|ts| - 1], " ") != "None"
    ensures ParseRow(line) == Some(Mapped(Join(ts[1..|ts| - 1], " "), ts[0], ts[|ts| - 1]))
  {
    assert !IsBlank(line) by { BlankIffNoTokens(line); }
    assert !IsRule(line);
    ParseRowReads(line, ts);
  }

  /** `ParseRow` on a line known to be neither blank nor a rule. */
  lemma ParseRowReads(line: string, ts: seq<string>)
    requires Tokens(line) == ts && |ts| >= 3
    requires !IsBlank(line) && !IsRule(line)
    requires ts[0] != "Unknown" && Join(ts[1..|ts| - 1], " ") != "None"
    ensures ParseRow(line) == Some(Mapped(Join(ts[1..|ts| - 1], " "), ts[0], ts[|ts| - 1]))
  {
  }

  /** The banner's name line of an alias of two or more words is read, as
      written, as a device whose MAC address is "Name:". */
  lemma AsWrittenReadsNameLine(alias: string)
    ensures var ws := Tokens(alias);
            |ws| >= 2 && Join(ws[..|ws| - 1], " ") != "None"
            ==> ParseRow("  Name: " + alias) == Some(Mapped(Join(ws[..|ws| - 1], " "), "Name:", ws[|ws| - 1]))
  {
    var ws := Tokens(alias);
    if |ws| >= 2 && Join(ws[..|ws| - 1], " ") != "None" {
      assert "  " + "Name:" + (" " + alias) == "  Name: " + alias;
      LabelTokens("  ", "Name:", alias);
      ParseRowOfLabel("  Name: " + alias, "Name:", ws);
    }
  }

  /** A blank indent, a label word, one space and the rest: the label is
      the first token. */
  lemma LabelTokens(sp: string, w: string, x: string)
    requires IsBlank(sp) && IsWord(w)
    ensures Tokens(sp + w + (" " + x)) == [w] + Tokens(x)
    ensures sp != [] ==> (sp + w + (" " + x))[0] == sp[0]
  {
    FirstToken(sp, w, " " + x);
    SpaceThenTokens(x);
  }

  /** A line whose first token is a label `w` and whose remaining two or
      more tokens are `ws` is read, as written, as a device whose MAC
      address is the label. */
  lemma ParseRowOfLabel(line: string, w: string, ws: seq<string>)
    requires Tokens(line) == [w] + ws && |ws| >= 2
    requires line != [] && line[0] != '-'
    requires w != "Unknown" && Join(ws[..|ws| - 1], " ") != "None"
    ensures ParseRow(line) == Some(Mapped(Join(ws[..|ws| - 1], " "), w, ws[|ws| - 1]))
  {
    var ts := [w] + ws;
    assert ts[1..|ts| - 1] == ws[..|ws| - 1];
    ParseRowOfTokenList(line, ts);
  }

  lemma JoinFoundBanner()
    ensures Join([Tick] + ["FOUND", "TARGET"] + ["DEVICE!"], " ") == FoundBanner
  {
    var all := [Tick] + ["FOUND", "TARGET"] + ["DEVICE!"];
    assert all[1..] == ["FOUND", "TARGET", "DEVICE!"];
    assert all[1..][1..] == ["TARGET", "DEVICE!"];
    assert all[1..][1..][1..] == ["DEVICE!"];
    assert "TARGET" + " " + "DEVICE!" == "TARGET" + " DEVICE!";
    assert Join(all[1..][1..], " ") == "TARGET" + " DEVICE!";
    assert Join(all[1..], " ") == "FOUND" + " TARGET" + " DEVICE!";
    assert Join(all, " ") == Tick + " " + ("FOUND" + " TARGET" + " DEVICE!");
    assert " " + "FOUND" == " FOUND";
  }

  /** In list mode the reader as written gets one record out of the
      closing lines printed when nothing matched. */
  lemma AsWrittenReadsTail()
    ensures Scan(Tail([]), true, ParseRow) == [Mapped(Join(MissingName, " "), Cross, "found")]
  {
    var t := Tail([]);
    assert t == ["", MissingLine, ""];
    MissingLineInert();
    AsWrittenReadsMissingLine();
    assert !IsHeader("") && ParseRow("") == None by {
      EmptyLineInert();
    }
    assert t[1..] == [MissingLine, ""];
    assert t[1..][1..] == [""];
  }

  /** When the scan finds no devices, the script as written still reports
      one: the "not found" banner, read as a row. */
  lemma AsWrittenMapsMissingBanner(before: seq<string>)
    requires !HeaderIn(before)
    ensures Scan(before + MainLines([]), false, ParseRow) == [Mapped(Join(MissingName, " "), Cross, "found")]
  {
    assert MainLines([]) == Head(0) + Tail([]);
    ScanAppend(before, MainLines([]), false, ParseRow);
    ScanBeforeHeader(before, ParseRow);
    assert ParseRow(RuleLine) == None;
    HeadReadsNothing(0, Tail([]), ParseRow);
    AsWrittenReadsTail();
  }

  /** The same, from the captured standard output. */
  lemma AsWrittenOutputMapsMissingBanner(before: seq<string>)
    requires NoLineBreaks(before) && !HeaderIn(before)
    ensures Scan(Split(TranslateNewlines(Join(before + MainLines([]), "\n")), '\n'), false, ParseRow)
         == [Mapped(Join(MissingName, " "), Cross, "found")]
  {
    SplitPrinted(before, []);
    AsWrittenMapsMissingBanner(before);
  }

  // ---------------------------------------------------------------------------
  // From the discovered entries to the printed devices
  // ---------------------------------------------------------------------------

  /** The devices `main` prints for the discovered entries, in order. */
  function ShowAll(entries: seq<Discovery.Entry>): (shown: seq<Shown>)
    ensures |shown| == |entries| && forall i :: 0 <= i < |entries| ==> shown[i] == Show(entries[i])
  {
    seq(|entries|, i requires 0 <= i < |entries| => Show(entries[i]))
  }

  /** The "not found" banner is printed exactly when no discovered entry
      was sighted as the target. */
  lemma NotFoundIffNoSighting(entries: seq<Discovery.Entry>)
    ensures MissingLine in Tail(ShowAll(entries)) <==> Discovery.Sightings(entries) == []
  {
    var shown := ShowAll(entries);
    assert MissingLine != "" by {
      var parts := [Cross] + MissingName + ["found"];
      assert MissingLine == parts[0] + " " + Join(parts[1..], " ");
    }
    if AnyTarget(shown) {
      var i :| 0 <= i < |shown| && Discovery.IsTargetMac(shown[i].mac);
      assert Discovery.IsTargetMac(Discovery.Str(entries[i].mac));
    } else {
      forall i | 0 <= i < |entries| ensures !Discovery.IsTargetMac(Discovery.Str(entries[i].mac)) {
        assert shown[i].mac == Discovery.Str(entries[i].mac);
      }
    }
  }
}
