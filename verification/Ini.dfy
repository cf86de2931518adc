/** The proxy's INI file on values: printing, splitting, trimming and reading back. */
module Ini {
  import opened Bytes

  const LINE_SIZE := 512
  const KEY_SIZE := 128
  const VALUE_SIZE := 256
  const PORT_SIZE := 64
  const LOG_FILE_SIZE := 256

  /** A text field of the configuration, as a C string without its terminator. */
  datatype Config = Config(
    comPort: string, baudRate: uint32, serialTimeout: uint32,
    tcpPort: nat, httpPort: nat,
    encryptionKey: nat, deviceTimeout: uint32, scanInterval: uint32,
    masterMode: int, autoScan: int,
    debugLevel: int, logToFile: int, logFile: string, verbose: int, showTimestamps: int)

  // --- Numbers ---

  function Digit(n: nat): char
    requires n < 10
  {
    "0123456789"[n]
  }

  predicate IsDigit(c: char) {
    '0' <= c <= '9'
  }

  function DigitValue(c: char): nat
    requires IsDigit(c)
  {
    (c - '0') as nat
  }

  /** `%u`. */
  function PrintNat(n: nat): (s: string)
    ensures |s| >= 1 && forall i :: 0 <= i < |s| ==> IsDigit(s[i])
    ensures n < 0x1_0000_0000 ==> |s| <= 10
  {
    PrintNatSize(n);
    PrintDigits(n)
  }

  function PrintDigits(n: nat): (s: string)
    ensures |s| >= 1 && forall i :: 0 <= i < |s| ==> IsDigit(s[i])
  {
    if n < 10 then [Digit(n)] else PrintDigits(n / 10) + [Digit(n % 10)]
  }

  lemma {:induction false} DigitsBound(n: nat, k: nat)
    requires k >= 1 && n < Power10(k)
    ensures |PrintDigits(n)| <= k
    decreases k
  {
    if n >= 10 {
      DigitsBound(n / 10, k - 1);
    }
  }

  function Power10(k: nat): nat {
    if k == 0 then 1 else 10 * Power10(k - 1)
  }

  lemma PrintNatSize(n: nat)
    ensures n < 0x1_0000_0000 ==> |PrintDigits(n)| <= 10
  {
    if n < 0x1_0000_0000 {
      assert Power10(10) == 10000000000;
      DigitsBound(n, 10);
    }
  }

  /** `%d`. */
  function PrintInt(i: int): (s: string)
    ensures |s| >= 1 && forall k :: 0 <= k < |s| ==> IsDigit(s[k]) || s[k] == '-'
    ensures -0x8000_0000 <= i < 0x8000_0000 ==> |s| <= 11
  {
    if i < 0 then "-" + PrintNat(-i) else PrintNat(i)
  }

  /** The number spelled by the leading digits. */
  function LeadingDigits(s: string, acc: nat): nat
    decreases |s|
  {
    if s == "" || !IsDigit(s[0]) then acc else LeadingDigits(s[1..], 10 * acc + DigitValue(s[0]))
  }

  predicate IsSpace(c: char) {
    c == ' ' || ('\t' <= c <= '\r')
  }

  /** `atoi`: leading white space, a sign, digits. */
  function Atoi(s: string): int
    decreases |s|
  {
    if s == "" then 0
    else if IsSpace(s[0]) then Atoi(s[1..])
    else if s[0] == '-' then 0 - LeadingDigits(s[1..], 0)
    else if s[0] == '+' then LeadingDigits(s[1..], 0)
    else LeadingDigits(s, 0)
  }

  lemma {:induction false} LeadingDigitsAppend(s: string, d: char, acc: nat)
    requires (forall i :: 0 <= i < |s| ==> IsDigit(s[i])) && IsDigit(d)
    ensures LeadingDigits(s + [d], acc) == 10 * LeadingDigits(s, acc) + DigitValue(d)
    decreases |s|
  {
    if s == "" {
      assert (s + [d])[1..] == "";
    } else {
      assert (s + [d])[1..] == s[1..] + [d];
      LeadingDigitsAppend(s[1..], d, 10 * acc + DigitValue(s[0]));
    }
  }

  lemma {:induction false} ReadBackNat(n: nat)
    ensures LeadingDigits(PrintDigits(n), 0) == n
  {
    if n < 10 {
      DigitReads(n);
      assert [Digit(n)][1..] == "";
    } else {
      ReadBackNat(n / 10);
      DigitReads(n % 10);
      LeadingDigitsAppend(PrintDigits(n / 10), Digit(n % 10), 0);
    }
  }

  lemma DigitReads(n: nat)
    requires n < 10
    ensures IsDigit(Digit(n)) && DigitValue(Digit(n)) == n
  {}

  /** Decimal printing and reading are inverse. */
  lemma ReadBackInt(i: int)
    ensures Atoi(PrintInt(i)) == i
  {
    if i < 0 {
      ReadBackNat(-i);
      assert PrintInt(i)[1..] == PrintNat(-i);
    } else {
      ReadBackNat(i);
    }
  }

  // --- Trimming ---

  predicate LeadBlank(c: char) {
    c == ' ' || c == '\t'
  }

  predicate TailBlank(c: char) {
    c == ' ' || c == '\t' || c == '\n' || c == '\r'
  }

  function TrimLeft(s: string): (r: string)
    ensures |r| <= |s| && r == s[|s| - |r|..]
    ensures r != "" ==> !LeadBlank(r[0])
  {
    if s != "" && LeadBlank(s[0]) then TrimLeft(s[1..]) else s
  }

  /** Trailing blanks go, but never the first character. */
  function TrimRight(s: string): (r: string)
    ensures |r| <= |s| && r == s[..|r|]
    ensures |r| >= 2 ==> !TailBlank(r[|r| - 1])
    ensures s != "" ==> r != ""
  {
    if |s| >= 2 && TailBlank(s[|s| - 1]) then TrimRight(s[..|s| - 1]) else s
  }

  /** `trim_whitespace`. */
  function Trim(s: string): string {
    TrimRight(TrimLeft(s))
  }

  // --- Setting one field ---

  function AsUint32(i: int): uint32 {
    i % TWO_TO_THE_32
  }

  function Truncated(s: string, n: nat): string {
    if |s| <= n then s else s[..n]
  }

  /** The number fields of `config_set`; an unknown key changes nothing. */
  function SetNumber(c: Config, key: string, n: int): (r: Config)
    ensures r.comPort == c.comPort && r.logFile == c.logFile
  {
    if key == "baud_rate" then c.(baudRate := AsUint32(n))
    else if key == "serial_timeout_ms" then c.(serialTimeout := AsUint32(n))
    else if key == "tcp_port" then c.(tcpPort := n % 0x1_0000)
    else if key == "http_port" then c.(httpPort := n % 0x1_0000)
    else if key == "encryption_key" then c.(encryptionKey := n % 0x100)
    else if key == "device_timeout_sec" then c.(deviceTimeout := AsUint32(n))
    else if key == "scan_interval_sec" then c.(scanInterval := AsUint32(n))
    else if key == "master_mode" then c.(masterMode := n)
    else if key == "auto_scan" then c.(autoScan := n)
    else if key == "debug_level" then c.(debugLevel := n)
    else if key == "log_to_file" then c.(logToFile := n)
    else if key == "verbose" then c.(verbose := n)
    else if key == "show_timestamps" then c.(showTimestamps := n)
    else c
  }

  /** `config_set`. */
  function Set(c: Config, key: string, value: string): Config {
    if key == "com_port" then c.(comPort := Truncated(value, PORT_SIZE - 1))
    else if key == "log_file" then c.(logFile := Truncated(value, LOG_FILE_SIZE - 1))
    else SetNumber(c, key, Atoi(value))
  }

  // --- Loading ---

  /** The position of the first `c`, or the length. */
  function IndexOf(s: string, c: char): (i: nat)
    ensures i <= |s| && c !in s[..i] && (i < |s| ==> s[i] == c)
  {
    if s == "" || s[0] == c then 0 else 1 + IndexOf(s[1..], c)
  }

  /** One turn of the loop of `config_load_file`. */
  function LoadLine(c: Config, line: string): Config {
    var t := Trim(line);
    if t == "" || t[0] == '#' || t[0] == ';' || t[0] == '[' then c
    else
      var i := IndexOf(t, '=');
      if i == |t| then c
      else Set(c, Trim(Truncated(t[..i], KEY_SIZE - 1)), Trim(Truncated(t[i + 1..], VALUE_SIZE - 1)))
  }

  /** The length of what `fgets` takes: through the next newline, at most the buffer less one. */
  function ChunkLength(text: string): (n: nat)
    requires text != ""
    ensures 1 <= n <= |text| && n < LINE_SIZE
  {
    var i := IndexOf(text, '\n');
    var n := if i < |text| then i + 1 else i;
    if n < LINE_SIZE then n else LINE_SIZE - 1
  }

  /** A chunk ends with the first line break, or at the end of the text, or at 511 characters, whichever comes first. */
  lemma ChunkMeans(text: string)
    requires text != ""
    ensures var n := ChunkLength(text);
            && (forall i :: 0 <= i < n - 1 ==> text[i] != '\n')
            && (n == 511 || n == |text| || text[n - 1] == '\n')
  {
    hide IndexOf;
    ChunkBreaksAtEnd(text);
    var n := ChunkLength(text);
    assert forall i :: 0 <= i < n ==> text[..n][i] == text[i];
  }

  function Load(c: Config, text: string): Config
    decreases |text|
  {
    if text == "" then c
    else
      var n := ChunkLength(text);
      Load(LoadLine(c, text[..n]), text[n..])
  }

  // --- Saving ---

  /** A line of the file: a comment, section or empty line, or a setting. */
  datatype Entry = Note(text: string) | Pair(key: string, value: string)

  function EntryLine(e: Entry): string {
    match e
    case Note(text) => text
    case Pair(key, value) => key + " = " + value
  }

  function Render(entries: seq<Entry>): string {
    if entries == [] then "" else EntryLine(entries[0]) + "\n" + Render(entries[1..])
  }

  const TITLE: string := "# Orion RS-485 " + "Proxy Service " + "Configuration"
  const SUBTITLE: string := "# Generated " + "automatically — " + "edit as needed"

  function HeadEntries(c: Config): seq<Entry> {
    [Note(TITLE), Note(SUBTITLE), Note(""), Note("[serial]")]
  }

  function SerialEntries(c: Config): seq<Entry> {
    [Pair("com_port", c.comPort), Pair("baud_rate", PrintNat(c.baudRate)),
     Pair("serial_timeout_ms", PrintNat(c.serialTimeout)), Note("")]
  }

  function ServerEntries(c: Config): seq<Entry> {
    [Note("[server]"), Pair("tcp_port", PrintNat(c.tcpPort)), Pair("http_port", PrintNat(c.httpPort)), Note("")]
  }

  function ProtocolEntries(c: Config): seq<Entry> {
    [Note("[protocol]"), Pair("encryption_key", PrintNat(c.encryptionKey)),
     Pair("device_timeout_sec", PrintNat(c.deviceTimeout)),
     Pair("scan_interval_sec", PrintNat(c.scanInterval)), Note("")]
  }

  function ModeEntries(c: Config): seq<Entry> {
    [Note("[mode]"), Pair("master_mode", PrintInt(c.masterMode)), Pair("auto_scan", PrintInt(c.autoScan)), Note("")]
  }

  function DebugEntries(c: Config): seq<Entry> {
    [Note("[debug]"), Pair("debug_level", PrintInt(c.debugLevel)), Pair("log_to_file", PrintInt(c.logToFile)),
     Pair("log_file", c.logFile)]
  }

  function TailEntries(c: Config): seq<Entry> {
    [Pair("verbose", PrintInt(c.verbose)), Pair("show_timestamps", PrintInt(c.showTimestamps)), Note("")]
  }

  function Entries(c: Config): seq<Entry> {
    HeadEntries(c) + SerialEntries(c) + ServerEntries(c) + ProtocolEntries(c) + ModeEntries(c) +
    DebugEntries(c) + TailEntries(c)
  }

  /** The text `config_save_file` writes. */
  function Save(c: Config): string {
    Render(Entries(c))
  }

  // --- The round trip ---

  /** A name without line breaks, as it comes back through one line of the file. */
  function Loaded(value: string): string {
    Trim(Truncated(TrimTail(" " + value), VALUE_SIZE - 1))
  }

  /** All trailing blanks go. */
  function TrimTail(s: string): (r: string)
    ensures |r| <= |s| && r == s[..|r|]
    ensures r != "" ==> !TailBlank(r[|r| - 1])
  {
    if s != "" && TailBlank(s[|s| - 1]) then TrimTail(s[..|s| - 1]) else s
  }

  /** Starts with a letter and contains neither blanks nor '='. */
  predicate PlainKey(key: string) {
    && 1 <= |key| < KEY_SIZE
    && (forall i :: 0 <= i < |key| ==> !TailBlank(key[i]) && key[i] != '=')
    && key[0] != '#' && key[0] != ';' && key[0] != '['
  }

  lemma {:induction false} TrimRightAfter(head: string, s: string)
    requires |head| >= 1 && !TailBlank(head[|head| - 1])
    ensures TrimRight(head + s) == head + TrimTail(s)
    decreases |s|
  {
    if s != "" && TailBlank(s[|s| - 1]) {
      assert (head + s)[..|head + s| - 1] == head + s[..|s| - 1];
      TrimRightAfter(head, s[..|s| - 1]);
    } else if s == "" {
      assert head + s == head;
    }
  }

  lemma LineParts(key: string, value: string)
    ensures key + " = " + value + "\n" == (key + " =") + ((" " + value) + "\n")
  {}

  lemma NothingOnTheLeft(s: string)
    requires s != "" && !LeadBlank(s[0])
    ensures TrimLeft(s) == s
  {}

  lemma TrimTailDropsBreak(s: string)
    ensures TrimTail(s + "\n") == TrimTail(s)
  {
    assert (s + "\n")[..|s|] == s;
  }

  /** The line of a setting, trimmed. */
  lemma PairTrimmed(key: string, value: string)
    requires PlainKey(key)
    ensures Trim(key + " = " + value + "\n") == key + " =" + TrimTail(" " + value)
  {
    hide TrimTail, TrimLeft, TrimRight;
    var line := key + " = " + value + "\n";
    var head := key + " =";
    var v := " " + value;
    LineParts(key, value);
    assert line[0] == key[0];
    NothingOnTheLeft(line);
    TrimRightAfter(head, v + "\n");
    TrimTailDropsBreak(v);
  }

  /** A setting's line sets its key to the value as it comes back. */
  lemma PairLine(c: Config, key: string, value: string)
    requires PlainKey(key)
    ensures LoadLine(c, key + " = " + value + "\n") == Set(c, key, Loaded(value))
  {
    hide Set, Trim, TrimTail, TailBlank;
    PairTrimmed(key, value);
    var tail := TrimTail(" " + value);
    var t := key + " =" + tail;
    IndexIs(t, '=', |key| + 1);
    assert t[..|key| + 1] == key + " ";
    assert t[|key| + 2..] == tail;
    assert t[0] == key[0];
    KeyTrims(key);
  }

  lemma IndexIs(s: string, c: char, i: nat)
    requires i < |s| && s[i] == c && forall k :: 0 <= k < i ==> s[k] != c
    ensures IndexOf(s, c) == i
  {
    var before := s[..IndexOf(s, c)];
    assert forall k :: 0 <= k < |before| ==> before[k] != c;
  }

  lemma KeyTrims(key: string)
    requires PlainKey(key)
    ensures Trim(Truncated(key + " ", KEY_SIZE - 1)) == key
  {
    hide TrimLeft, TrimRight, TrimTail;
    assert (key + " ")[..|key|] == key;
    var s := Truncated(key + " ", KEY_SIZE - 1);
    assert s[0] == key[0];
    NothingOnTheLeft(s);
    TailOfBlank();
    assert key + "" == key;
    TrimRightAfter(key, s[|key|..]);
    assert s == key + s[|key|..];
  }

  lemma TailOfBlank()
    ensures TrimTail(" ") == "" && TrimTail("") == ""
  {
    assert " "[..0] == "";
  }

  /** A name that survives: no line break, no blank at either end, and room for the blank before it. */
  predicate Survives(name: string) {
    && '\n' !in name
    && (name != "" ==> !LeadBlank(name[0]) && !TailBlank(name[|name| - 1]))
    && |name| <= VALUE_SIZE - 2
  }

  /** What comes back is short, starts with no blank, and ends with none beyond its first character. */
  lemma LoadedEnds(name: string)
    ensures var r := Loaded(name);
            && |r| <= VALUE_SIZE - 2
            && (r != "" ==> !LeadBlank(r[0]))
            && (|r| >= 2 ==> !TailBlank(r[|r| - 1]))
  {
    hide TrimLeft, TrimRight, TrimTail;
    var v := " " + name;
    var x := Truncated(TrimTail(v), VALUE_SIZE - 1);
    if x != "" {
      assert x[0] == v[0];
      BlankDropped(x);
    }
    var l := TrimLeft(x);
    assert Loaded(name) == TrimRight(l);
  }

  lemma BlankDropped(s: string)
    requires s != "" && LeadBlank(s[0])
    ensures |TrimLeft(s)| < |s|
  {}

  lemma SurvivorLoaded(name: string)
    requires Survives(name)
    ensures Loaded(name) == name
  {
    hide TrimLeft, TrimRight, TrimTail;
    var v := " " + name;
    if name == "" {
      TailOfBlank();
      assert v == " ";
      EmptyTrims();
    } else {
      KeptTail(v);
      assert v[1..] == name;
      OneBlankDropped(name);
      KeptRight(name);
    }
  }

  lemma EmptyTrims()
    ensures Trim("") == ""
  {}

  lemma KeptTail(s: string)
    requires s != "" && !TailBlank(s[|s| - 1])
    ensures TrimTail(s) == s
  {}

  lemma KeptRight(s: string)
    requires s != "" && !TailBlank(s[|s| - 1])
    ensures TrimRight(s) == s
  {}

  lemma OneBlankDropped(s: string)
    requires s != "" && !LeadBlank(s[0])
    ensures TrimLeft(" " + s) == s
  {
    assert (" " + s)[1..] == s;
  }

  /** Among names without line breaks exactly the surviving ones come back. */
  lemma LoadedIffSurvives(name: string)
    requires '\n' !in name
    ensures Loaded(name) == name <==> Survives(name)
  {
    hide Loaded;
    if Survives(name) {
      SurvivorLoaded(name);
    } else {
      LoadedEnds(name);
      if |name| == 1 && TailBlank(name[0]) {
        BlankNameLost(name);
      }
    }
  }

  lemma BlankNameLost(name: string)
    requires |name| == 1 && TailBlank(name[0])
    ensures Loaded(name) == ""
  {
    var v := " " + name;
    assert v[..1] == " ";
    assert v[..1][..0] == "";
    assert TrimTail(v[..1]) == "";
    assert TrimTail(v) == "";
  }

  /** Reading back never lengthens. */
  lemma LoadedShorter(name: string)
    ensures |Loaded(name)| <= |name|
  {
    var v := " " + name;
    var x := Truncated(TrimTail(v), VALUE_SIZE - 1);
    assert x != "" ==> x[0] == v[0];
  }

  // --- What a line of the file means ---

  lemma NumberPair(c: Config, key: string, n: int)
    requires PlainKey(key) && key != "com_port" && key != "log_file" && IsInt(n)
    ensures LoadLine(c, key + " = " + PrintInt(n) + "\n") == SetNumber(c, key, n)
  {
    hide LoadLine, PrintInt, Loaded, Atoi, SetNumber;
    PairLine(c, key, PrintInt(n));
    NumberSurvives(n);
  }

  /** The lines of the serial, server and protocol sections, each with the field it sets and its width. */
  lemma NumberLines(c: Config, n: int)
    requires IsInt(n)
    ensures LoadLine(c, "baud_rate" + " = " + PrintInt(n) + "\n") == c.(baudRate := n % TWO_TO_THE_32)
    ensures LoadLine(c, "serial_timeout_ms" + " = " + PrintInt(n) + "\n") == c.(serialTimeout := n % TWO_TO_THE_32)
    ensures LoadLine(c, "tcp_port" + " = " + PrintInt(n) + "\n") == c.(tcpPort := n % 65536)
    ensures LoadLine(c, "http_port" + " = " + PrintInt(n) + "\n") == c.(httpPort := n % 65536)
    ensures LoadLine(c, "encryption_key" + " = " + PrintInt(n) + "\n") == c.(encryptionKey := n % 256)
    ensures LoadLine(c, "device_timeout_sec" + " = " + PrintInt(n) + "\n") == c.(deviceTimeout := n % TWO_TO_THE_32)
    ensures LoadLine(c, "scan_interval_sec" + " = " + PrintInt(n) + "\n") == c.(scanInterval := n % TWO_TO_THE_32)
  {
    hide LoadLine, PrintInt, PlainKey;
    NumberKeys();
    NumberPair(c, "baud_rate", n);
    NumberPair(c, "serial_timeout_ms", n);
    NumberPair(c, "tcp_port", n);
    NumberPair(c, "http_port", n);
    NumberPair(c, "encryption_key", n);
    NumberPair(c, "device_timeout_sec", n);
    NumberPair(c, "scan_interval_sec", n);
  }

  lemma NumberKeys()
    ensures PlainKey("baud_rate") && PlainKey("serial_timeout_ms") && PlainKey("tcp_port") && PlainKey("http_port")
    ensures PlainKey("encryption_key") && PlainKey("device_timeout_sec") && PlainKey("scan_interval_sec")
  {}

  /** The lines of the mode and debug sections. */
  lemma FlagLines(c: Config, n: int)
    requires IsInt(n)
    ensures LoadLine(c, "master_mode" + " = " + PrintInt(n) + "\n") == c.(masterMode := n)
    ensures LoadLine(c, "auto_scan" + " = " + PrintInt(n) + "\n") == c.(autoScan := n)
    ensures LoadLine(c, "debug_level" + " = " + PrintInt(n) + "\n") == c.(debugLevel := n)
    ensures LoadLine(c, "log_to_file" + " = " + PrintInt(n) + "\n") == c.(logToFile := n)
    ensures LoadLine(c, "verbose" + " = " + PrintInt(n) + "\n") == c.(verbose := n)
    ensures LoadLine(c, "show_timestamps" + " = " + PrintInt(n) + "\n") == c.(showTimestamps := n)
  {
    hide LoadLine, PrintInt, PlainKey;
    FlagKeys();
    NumberPair(c, "master_mode", n);
    NumberPair(c, "auto_scan", n);
    NumberPair(c, "debug_level", n);
    NumberPair(c, "log_to_file", n);
    NumberPair(c, "verbose", n);
    NumberPair(c, "show_timestamps", n);
  }

  lemma FlagKeys()
    ensures PlainKey("master_mode") && PlainKey("auto_scan") && PlainKey("debug_level") && PlainKey("log_to_file")
    ensures PlainKey("verbose") && PlainKey("show_timestamps")
  {}

  /** The lines of the two names, for a name that survives and fits its field. */
  lemma NameLines(c: Config, name: string)
    requires Survives(name)
    ensures |name| <= 63 ==> LoadLine(c, "com_port" + " = " + name + "\n") == c.(comPort := name)
    ensures LoadLine(c, "log_file" + " = " + name + "\n") == c.(logFile := name)
  {
    hide LoadLine, Loaded;
    assert PlainKey("com_port") && PlainKey("log_file");
    PairLine(c, "com_port", name);
    PairLine(c, "log_file", name);
    LoadedIffSurvives(name);
  }

  /** A comment, a section header or a line without '=' changes nothing. */
  lemma LineIgnored(c: Config, blanks: string, line: string)
    requires forall i :: 0 <= i < |blanks| ==> blanks[i] == ' ' || blanks[i] == '\t'
    requires line == "" || line[0] == '#' || line[0] == ';' || line[0] == '[' || '=' !in line
    ensures LoadLine(c, blanks + line) == c
  {
    hide Set, TrimLeft, TrimRight;
    if line == "" || !(line[0] == '#' || line[0] == ';' || line[0] == '[') {
      NoEquals(blanks + line);
    } else {
      BlanksDropped(blanks, line);
      NothingOnTheLeft(line);
      TrimRightKeepsFirst(line);
    }
  }

  lemma NoEquals(s: string)
    requires '=' !in s
    ensures IndexOf(Trim(s), '=') == |Trim(s)|
  {
    hide Trim, IndexOf;
    TrimIsPart(s, '=');
  }

  lemma {:induction false} BlanksDropped(blanks: string, line: string)
    requires forall i :: 0 <= i < |blanks| ==> LeadBlank(blanks[i])
    ensures TrimLeft(blanks + line) == TrimLeft(line)
  {
    if blanks == "" {
      assert blanks + line == line;
    } else {
      assert (blanks + line)[1..] == blanks[1..] + line;
      BlanksDropped(blanks[1..], line);
    }
  }

  // --- From lines to the file ---

  predicate OneLine(e: Entry) {
    var line := EntryLine(e);
    '\n' !in line && |line| + 1 < LINE_SIZE
  }

  predicate Harmless(e: Entry) {
    match e
    case Note(text) => text == "" || text[0] == '#' || text[0] == '['
    case Pair(key, _) => PlainKey(key)
  }

  /** What an entry does when it is read. */
  function Effect(c: Config, e: Entry): Config {
    match e
    case Note(_) => c
    case Pair(key, value) => Set(c, key, Loaded(value))
  }

  function Effects(c: Config, entries: seq<Entry>): Config
    decreases |entries|
  {
    if entries == [] then c else Effects(Effect(c, entries[0]), entries[1..])
  }

  lemma {:induction false} EffectsConcat(c: Config, a: seq<Entry>, b: seq<Entry>)
    ensures Effects(c, a + b) == Effects(Effects(c, a), b)
    decreases |a|
  {
    hide Effect;
    if a == [] {
      assert a + b == b;
    } else {
      assert (a + b)[1..] == a[1..] + b;
      EffectsConcat(Effect(c, a[0]), a[1..], b);
    }
  }

  lemma NoteLine(c: Config, text: string)
    requires Harmless(Note(text))
    ensures LoadLine(c, text + "\n") == c
  {
    hide Set;
    var line := text + "\n";
    assert TrimLeft(line) == line;
    if text != "" {
      TrimRightKeepsFirst(line);
    } else {
      LoneCharacter(line);
    }
  }

  lemma TrimRightKeepsFirst(s: string)
    requires s != ""
    ensures TrimRight(s)[0] == s[0]
  {}

  lemma LoneCharacter(s: string)
    requires |s| == 1 && !LeadBlank(s[0]) && s[0] != '='
    ensures Trim(s) == s && IndexOf(s, '=') == 1
  {
    hide IndexOf, TrimLeft;
    NothingOnTheLeft(s);
  }

  lemma EntryRead(c: Config, e: Entry)
    requires Harmless(e)
    ensures LoadLine(c, EntryLine(e) + "\n") == Effect(c, e)
  {
    hide LoadLine, Set, Loaded;
    match e
    case Note(text) => NoteLine(c, text);
    case Pair(key, value) => PairLine(c, key, value);
  }

  /** The first line of a text is what `fgets` takes. */
  lemma FirstChunk(line: string, rest: string)
    requires '\n' !in line && |line| + 1 < LINE_SIZE
    ensures ChunkLength(line + "\n" + rest) == |line| + 1
    ensures (line + "\n" + rest)[..|line| + 1] == line + "\n" && (line + "\n" + rest)[|line| + 1..] == rest
  {
    var text := line + "\n" + rest;
    assert forall k :: 0 <= k < |line| ==> text[k] == line[k] && line[k] in line;
    IndexIs(text, '\n', |line|);
  }

  /** Reading a rendered file is applying its entries, when none of them breaks a line or overflows the buffer. */
  lemma {:induction false} LoadRendered(c: Config, entries: seq<Entry>)
    requires forall i :: 0 <= i < |entries| ==> OneLine(entries[i]) && Harmless(entries[i])
    ensures Load(c, Render(entries)) == Effects(c, entries)
    decreases |entries|
  {
    hide LoadLine, EntryLine, Effect, Harmless, ChunkLength;
    if entries == [] {
    } else {
      assert OneLine(entries[0]) && Harmless(entries[0]);
      FirstChunk(EntryLine(entries[0]), Render(entries[1..]));
      EntryRead(c, entries[0]);
      LoadRendered(Effect(c, entries[0]), entries[1..]);
    }
  }

  // --- The fields ---

  /** What `%u`, `%d` and `atoi` are defined on, and what fits the name fields. */
  predicate Representable(c: Config) {
    && c.baudRate < 0x8000_0000 && c.serialTimeout < 0x8000_0000
    && c.tcpPort < 0x1_0000 && c.httpPort < 0x1_0000 && c.encryptionKey < 0x100
    && c.deviceTimeout < 0x8000_0000 && c.scanInterval < 0x8000_0000
    && IsInt(c.masterMode) && IsInt(c.autoScan) && IsInt(c.debugLevel) && IsInt(c.logToFile)
    && IsInt(c.verbose) && IsInt(c.showTimestamps)
    && |c.comPort| < PORT_SIZE && |c.logFile| < LOG_FILE_SIZE
  }

  predicate IsInt(i: int) {
    -0x8000_0000 <= i < 0x8000_0000
  }

  lemma NumberSurvives(i: int)
    requires IsInt(i)
    ensures Loaded(PrintInt(i)) == PrintInt(i) && Atoi(PrintInt(i)) == i
    ensures i >= 0 ==> PrintNat(i) == PrintInt(i)
    ensures '\n' !in PrintInt(i) && |PrintInt(i)| <= 11
  {
    hide Loaded, Atoi, PrintNat;
    ReadBackInt(i);
    LoadedIffSurvives(PrintInt(i));
  }

  lemma SerialRead(d: Config, c: Config)
    requires Representable(c)
    ensures Effects(d, SerialEntries(c)) ==
            d.(comPort := Truncated(Loaded(c.comPort), PORT_SIZE - 1),
               baudRate := c.baudRate, serialTimeout := c.serialTimeout)
  {
    hide Loaded, PrintNat, PrintInt, Atoi;
    NumberSurvives(c.baudRate);
    NumberSurvives(c.serialTimeout);
    Effects4(d, SerialEntries(c));
  }

  lemma ServerRead(d: Config, c: Config)
    requires Representable(c)
    ensures Effects(d, ServerEntries(c)) == d.(tcpPort := c.tcpPort, httpPort := c.httpPort)
  {
    hide Loaded, PrintNat, PrintInt, Atoi;
    NumberSurvives(c.tcpPort);
    NumberSurvives(c.httpPort);
    Effects4(d, ServerEntries(c));
  }

  lemma ProtocolRead(d: Config, c: Config)
    requires Representable(c)
    ensures Effects(d, ProtocolEntries(c)) ==
            d.(encryptionKey := c.encryptionKey, deviceTimeout := c.deviceTimeout, scanInterval := c.scanInterval)
  {
    hide Loaded, PrintNat, PrintInt, Atoi;
    NumberSurvives(c.encryptionKey);
    NumberSurvives(c.deviceTimeout);
    NumberSurvives(c.scanInterval);
    EffectsStep(d, ProtocolEntries(c));
    Effects4(d, ProtocolEntries(c)[1..]);
  }

  lemma ModeRead(d: Config, c: Config)
    requires Representable(c)
    ensures Effects(d, ModeEntries(c)) == d.(masterMode := c.masterMode, autoScan := c.autoScan)
  {
    hide Loaded, PrintNat, PrintInt, Atoi;
    NumberSurvives(c.masterMode);
    NumberSurvives(c.autoScan);
    Effects4(d, ModeEntries(c));
  }

  lemma DebugRead(d: Config, c: Config)
    requires Representable(c)
    ensures Effects(d, DebugEntries(c)) ==
            d.(debugLevel := c.debugLevel, logToFile := c.logToFile,
               logFile := Truncated(Loaded(c.logFile), LOG_FILE_SIZE - 1))
  {
    hide Loaded, PrintNat, PrintInt, Atoi;
    NumberSurvives(c.debugLevel);
    NumberSurvives(c.logToFile);
    Effects4(d, DebugEntries(c));
  }

  lemma TailRead(d: Config, c: Config)
    requires Representable(c)
    ensures Effects(d, [Note("")] + TailEntries(c)) == d.(verbose := c.verbose, showTimestamps := c.showTimestamps)
  {
    hide Loaded, PrintNat, PrintInt, Atoi;
    NumberSurvives(c.verbose);
    NumberSurvives(c.showTimestamps);
    Effects4(d, [Note("")] + TailEntries(c));
  }

  lemma HeadRead(d: Config, c: Config)
    ensures Effects(d, HeadEntries(c)) == d
  {
    Effects4(d, HeadEntries(c));
  }

  lemma Effects4(d: Config, e: seq<Entry>)
    requires |e| == 4
    ensures Effects(d, e) == Effect(Effect(Effect(Effect(d, e[0]), e[1]), e[2]), e[3])
  {
    hide Effect, Effects;
    EffectsStep(d, e);
    var d1 := Effect(d, e[0]);
    EffectsStep(d1, e[1..]);
    var d2 := Effect(d1, e[1]);
    assert e[1..][1..] == e[2..];
    EffectsStep(d2, e[2..]);
    var d3 := Effect(d2, e[2]);
    assert e[2..][1..] == e[3..];
    EffectsStep(d3, e[3..]);
    assert e[3..][1..] == [];
    EffectsStep(Effect(d3, e[3]), []);
  }

  lemma EffectsStep(c: Config, entries: seq<Entry>)
    ensures Effects(c, entries) == if entries == [] then c else Effects(Effect(c, entries[0]), entries[1..])
  {}

  /** Everything but the two names is restored; the names come back through their lines. */
  function ReadBack(c: Config): Config {
    c.(comPort := Truncated(Loaded(c.comPort), PORT_SIZE - 1),
       logFile := Truncated(Loaded(c.logFile), LOG_FILE_SIZE - 1))
  }

  lemma EntriesRead(d: Config, c: Config)
    requires Representable(c)
    ensures Effects(d, Entries(c)) == ReadBack(c)
  {
    hide Effects, HeadEntries, SerialEntries, ServerEntries, ProtocolEntries, ModeEntries, DebugEntries, TailEntries,
         Loaded, Truncated, Representable;
    var e1, e2, e3, e4 := HeadEntries(c), SerialEntries(c), ServerEntries(c), ProtocolEntries(c);
    var e5, e6, e7 := ModeEntries(c), DebugEntries(c), TailEntries(c);
    HeadRead(d, c);
    EffectsConcat(d, e1, e2);
    SerialRead(d, c);
    var d2 := Effects(d, e1 + e2);
    EffectsConcat(d, e1 + e2, e3);
    ServerRead(d2, c);
    var d3 := Effects(d, e1 + e2 + e3);
    EffectsConcat(d, e1 + e2 + e3, e4);
    ProtocolRead(d3, c);
    var d4 := Effects(d, e1 + e2 + e3 + e4);
    EffectsConcat(d, e1 + e2 + e3 + e4, e5);
    ModeRead(d4, c);
    var d5 := Effects(d, e1 + e2 + e3 + e4 + e5);
    EffectsConcat(d, e1 + e2 + e3 + e4 + e5, e6);
    DebugRead(d5, c);
    var d6 := Effects(d, e1 + e2 + e3 + e4 + e5 + e6);
    EffectsConcat(d, e1 + e2 + e3 + e4 + e5 + e6, e7);
    TailRead(d6, c);
    EffectsStep(d6, [Note("")] + e7);
    assert ([Note("")] + e7)[1..] == e7;
  }

  lemma NumberLine(key: string, i: int)
    requires PlainKey(key) && |key| <= 20 && IsInt(i)
    ensures OneLine(Pair(key, PrintInt(i))) && Harmless(Pair(key, PrintInt(i)))
    ensures i >= 0 ==> OneLine(Pair(key, PrintNat(i))) && Harmless(Pair(key, PrintNat(i)))
  {
    hide PrintNat, PrintInt, Loaded, Atoi;
    NumberSurvives(i);
    NameLine(key, PrintInt(i));
  }

  lemma NameLine(key: string, value: string)
    requires PlainKey(key) && |key| <= 20 && '\n' !in value && |value| < LOG_FILE_SIZE
    ensures OneLine(Pair(key, value)) && Harmless(Pair(key, value))
  {
    var line := key + " = " + value;
    forall i | 0 <= i < |line|
      ensures line[i] != '\n'
    {
      if i >= |key| + 3 {
        assert line[i] == value[i - |key| - 3] && value[i - |key| - 3] in value;
      }
    }
  }

  predicate AllGood(entries: seq<Entry>) {
    forall i :: 0 <= i < |entries| ==> OneLine(entries[i]) && Harmless(entries[i])
  }

  lemma NoteLineGood(text: string)
    requires Harmless(Note(text)) && '\n' !in text && |text| < 100
    ensures OneLine(Note(text))
  {}

  lemma NoBreakInParts(a: string, b: string, c: string)
    requires '\n' !in a && '\n' !in b && '\n' !in c && |a| + |b| + |c| < 100
    ensures OneLine(Note(a + b + c))
  {}

  lemma TitleGood()
    ensures OneLine(Note(TITLE))
  {
    hide OneLine;
    NoBreakInParts("# Orion RS-485 ", "Proxy Service ", "Configuration");
  }

  lemma SubtitleGood()
    ensures OneLine(Note(SUBTITLE))
  {
    hide OneLine;
    NoBreakInParts("# Generated ", "automatically — ", "edit as needed");
  }

  lemma HeadGood(c: Config)
    ensures AllGood(HeadEntries(c))
  {
    hide OneLine;
    TitleGood();
    SubtitleGood();
    NoteLineGood("");
    NoteLineGood("[serial]");
  }

  lemma SerialGood(c: Config)
    requires Representable(c) && '\n' !in c.comPort
    ensures AllGood(SerialEntries(c))
  {
    hide OneLine, PrintNat, PrintInt;
    NameLine("com_port", c.comPort);
    NumberLine("baud_rate", c.baudRate);
    NumberLine("serial_timeout_ms", c.serialTimeout);
    NoteLineGood("");
  }

  lemma ServerGood(c: Config)
    requires Representable(c)
    ensures AllGood(ServerEntries(c))
  {
    hide OneLine, PrintNat, PrintInt;
    NoteLineGood("[server]");
    NumberLine("tcp_port", c.tcpPort);
    NumberLine("http_port", c.httpPort);
    NoteLineGood("");
  }

  lemma ProtocolKeys()
    ensures PlainKey("encryption_key") && PlainKey("device_timeout_sec") && PlainKey("scan_interval_sec")
  {}

  lemma ProtocolGood(c: Config)
    requires Representable(c)
    ensures AllGood(ProtocolEntries(c))
  {
    hide OneLine, PrintNat, PrintInt, PlainKey;
    ProtocolKeys();
    NoteLineGood("[protocol]");
    NumberLine("encryption_key", c.encryptionKey);
    NumberLine("device_timeout_sec", c.deviceTimeout);
    NumberLine("scan_interval_sec", c.scanInterval);
    NoteLineGood("");
  }

  lemma ModeGood(c: Config)
    requires Representable(c)
    ensures AllGood(ModeEntries(c))
  {
    hide OneLine, PrintNat, PrintInt;
    NoteLineGood("[mode]");
    NumberLine("master_mode", c.masterMode);
    NumberLine("auto_scan", c.autoScan);
    NoteLineGood("");
  }

  lemma DebugGood(c: Config)
    requires Representable(c) && '\n' !in c.logFile
    ensures AllGood(DebugEntries(c))
  {
    hide OneLine, PrintNat, PrintInt;
    NoteLineGood("[debug]");
    NumberLine("debug_level", c.debugLevel);
    NumberLine("log_to_file", c.logToFile);
    NameLine("log_file", c.logFile);
  }

  lemma TailGood(c: Config)
    requires Representable(c)
    ensures AllGood(TailEntries(c))
  {
    hide OneLine, PrintNat, PrintInt;
    NumberLine("verbose", c.verbose);
    NumberLine("show_timestamps", c.showTimestamps);
    NoteLineGood("");
  }

  lemma AllGoodConcat(a: seq<Entry>, b: seq<Entry>)
    requires AllGood(a) && AllGood(b)
    ensures AllGood(a + b)
  {
    hide OneLine, Harmless;
  }

  lemma EntriesGood(c: Config)
    requires Representable(c) && '\n' !in c.comPort && '\n' !in c.logFile
    ensures AllGood(Entries(c))
  {
    hide HeadEntries, SerialEntries, ServerEntries, ProtocolEntries, ModeEntries, DebugEntries, TailEntries,
         AllGood, Representable;
    var e1, e2, e3, e4 := HeadEntries(c), SerialEntries(c), ServerEntries(c), ProtocolEntries(c);
    var e5, e6, e7 := ModeEntries(c), DebugEntries(c), TailEntries(c);
    HeadGood(c); SerialGood(c); ServerGood(c); ProtocolGood(c); ModeGood(c); DebugGood(c); TailGood(c);
    AllGoodConcat(e1, e2);
    AllGoodConcat(e1 + e2, e3);
    AllGoodConcat(e1 + e2 + e3, e4);
    AllGoodConcat(e1 + e2 + e3 + e4, e5);
    AllGoodConcat(e1 + e2 + e3 + e4 + e5, e6);
    AllGoodConcat(e1 + e2 + e3 + e4 + e5 + e6, e7);
  }

  /** Without line breaks in its names, a saved configuration loads as `ReadBack` says, over any other. */
  lemma LoadSaved(d: Config, c: Config)
    requires Representable(c) && '\n' !in c.comPort && '\n' !in c.logFile
    ensures Load(d, Save(c)) == ReadBack(c)
  {
    hide Load, Render, Entries, ReadBack, Representable;
    EntriesGood(c);
    LoadRendered(d, Entries(c));
    EntriesRead(d, c);
  }

  // --- Loaded names never contain a line break ---

  predicate NoBreaks(c: Config) {
    '\n' !in c.comPort && '\n' !in c.logFile
  }

  /** A chunk breaks the line at its end, if at all. */
  predicate BreaksAtEnd(s: string) {
    forall i :: 0 <= i < |s| - 1 ==> s[i] != '\n'
  }

  lemma ChunkBreaksAtEnd(text: string)
    requires text != ""
    ensures BreaksAtEnd(text[..ChunkLength(text)])
  {
    var i := IndexOf(text, '\n');
    var n := ChunkLength(text);
    forall k | 0 <= k < n - 1
      ensures text[..n][k] != '\n'
    {
      assert text[k] == text[..i][k] && text[..i][k] in text[..i];
    }
  }

  lemma TrimmedHasNoBreak(s: string)
    requires BreaksAtEnd(s)
    ensures '\n' in Trim(s) ==> Trim(s) == "\n"
  {
    hide TrimLeft, TrimRight;
    var l := TrimLeft(s);
    var t := Trim(s);
    if '\n' in t {
      var i :| 0 <= i < |t| && t[i] == '\n';
      assert s[|s| - |l| + i] == '\n';
      assert |s| - |l| + i == |s| - 1;
      assert i == |l| - 1 == |t| - 1;
    }
  }

  lemma TrimIsPart(s: string, c: char)
    ensures c in Trim(s) ==> c in s
  {
    var l := TrimLeft(s);
    if c in Trim(s) {
      assert c in l;
    }
  }

  lemma LineKeepsNoBreaks(c: Config, line: string)
    requires NoBreaks(c) && BreaksAtEnd(line)
    ensures NoBreaks(LoadLine(c, line))
  {
    hide Trim, Set;
    TrimmedHasNoBreak(line);
    var t := Trim(line);
    var i := IndexOf(t, '=');
    if t != "" && i < |t| {
      assert t != "\n";
      var x := Truncated(t[i + 1..], VALUE_SIZE - 1);
      assert forall k :: 0 <= k < |x| ==> x[k] == t[i + 1 + k] && t[i + 1 + k] in t;
      TrimIsPart(x, '\n');
      SetKeepsNoBreaks(c, Trim(Truncated(t[..i], KEY_SIZE - 1)), Trim(x));
    }
  }

  lemma SetKeepsNoBreaks(c: Config, key: string, value: string)
    requires NoBreaks(c) && '\n' !in value
    ensures NoBreaks(Set(c, key, value))
  {
    hide Set, Truncated;
    SetNames(c, key, value);
    TruncatedNoBreak(value, PORT_SIZE - 1);
    TruncatedNoBreak(value, LOG_FILE_SIZE - 1);
  }

  /** A name is kept or comes from the value. */
  lemma SetNames(c: Config, key: string, value: string)
    ensures Set(c, key, value).comPort == c.comPort || Set(c, key, value).comPort == Truncated(value, PORT_SIZE - 1)
    ensures Set(c, key, value).logFile == c.logFile || Set(c, key, value).logFile == Truncated(value, LOG_FILE_SIZE - 1)
  {
    hide Atoi, Truncated, SetNumber;
  }

  lemma TruncatedNoBreak(s: string, n: nat)
    requires '\n' !in s
    ensures '\n' !in Truncated(s, n)
  {}

  lemma {:induction false} LoadKeepsNoBreaks(c: Config, text: string)
    requires NoBreaks(c)
    ensures NoBreaks(Load(c, text))
    decreases |text|
  {
    if text != "" {
      hide LoadLine, NoBreaks, ChunkLength;
      ChunkBreaksAtEnd(text);
      var n := ChunkLength(text);
      LineKeepsNoBreaks(c, text[..n]);
      LoadKeepsNoBreaks(LoadLine(c, text[..n]), text[n..]);
    }
  }

  /** `config_init_defaults` on POSIX. */
  const DEFAULTS: Config :=
    Config("/dev/ttyUSB0", 9600, 100, 9100, 8080, 0, 30, 0, 0, 0, 0, 0, "orion_proxy.log", 0, 1)

  /**
   * The round trip. Loading a saved configuration over the defaults restores it exactly when both names
   * survive their lines: no line break, no blank at either end, and at most 254 characters, one fewer
   * than the log file field holds.
   */
  lemma RoundTrip(c: Config)
    requires Representable(c)
    ensures Load(DEFAULTS, Save(c)) == c <==> Survives(c.comPort) && Survives(c.logFile)
  {
    hide Load, Save, Loaded;
    if '\n' in c.comPort || '\n' in c.logFile {
      LoadKeepsNoBreaks(DEFAULTS, Save(c));
    } else {
      LoadSaved(DEFAULTS, c);
      LoadedIffSurvives(c.comPort);
      LoadedIffSurvives(c.logFile);
      LoadedShorter(c.comPort);
      LoadedShorter(c.logFile);
    }
  }
}
