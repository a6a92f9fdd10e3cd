/** The log parser hook (`useLogParser`): configuration, file validation,
    timestamp formatting, the parsing of one log line into a record, and
    the assembly of the dataset from the lines of a file. */
module LogParser {
  import opened Wrappers
  import opened Text
  import opened JsNumbers
  import opened NumberParsing
  import opened CivilTime
  import opened Collections

  // ---------------------------------------------------------------- configuration

  datatype Config = Config(maxFileSize: int, allowedFileTypes: seq<string>, strictParsing: bool)

  /** `DEFAULT_CONFIG`: files up to 10 MB, `.log` and `.txt`, strict parsing. */
  const DefaultConfig: Config := Config(10 * 1024 * 1024, [".log", ".txt"], true)

  /** The keys a caller passes to `useLogParser(config)`; an absent key is None. */
  datatype ConfigOverrides = ConfigOverrides(
    maxFileSize: Option<int>, allowedFileTypes: Option<seq<string>>, strictParsing: Option<bool>)

  /** `{ ...DEFAULT_CONFIG, ...config }`: each key the caller gives replaces
      the default, key by key; the other keys keep their defaults. */
  function MergeConfig(defaults: Config, overrides: ConfigOverrides): (c: Config)
    ensures overrides.maxFileSize.Some? ==> c.maxFileSize == overrides.maxFileSize.value
    ensures overrides.maxFileSize.None? ==> c.maxFileSize == defaults.maxFileSize
    ensures overrides.allowedFileTypes.Some? ==> c.allowedFileTypes == overrides.allowedFileTypes.value
    ensures overrides.allowedFileTypes.None? ==> c.allowedFileTypes == defaults.allowedFileTypes
    ensures overrides.strictParsing.Some? ==> c.strictParsing == overrides.strictParsing.value
    ensures overrides.strictParsing.None? ==> c.strictParsing == defaults.strictParsing
  {
    Config(
      if overrides.maxFileSize.Some? then overrides.maxFileSize.value else defaults.maxFileSize,
      if overrides.allowedFileTypes.Some? then overrides.allowedFileTypes.value else defaults.allowedFileTypes,
      if overrides.strictParsing.Some? then overrides.strictParsing.value else defaults.strictParsing)
  }

  // ---------------------------------------------------------------- file validation

  datatype FileInfo = FileInfo(name: string, size: int)

  /** The outcome of `validateFile`, with the reason of a rejection. */
  datatype Validation = Accepted | FileTooLarge | InvalidFileType

  /** `'.' + file.name.split('.').pop().toLowerCase()`: a dot followed by
      text without a dot. */
  function FileExtension(name: string): (e: string)
    ensures |e| >= 1 && e[0] == '.' && '.' !in e[1..]
  {
    var parts := Split(name, '.');
    assert parts[|parts| - 1] in parts;
    LowerKeepsNoDot(parts[|parts| - 1]);
    "." + ToLower(parts[|parts| - 1])
  }

  lemma LowerKeepsNoDot(s: string)
    requires '.' !in s
    ensures '.' !in ("." + ToLower(s))[1..]
  {
    var e := "." + ToLower(s);
    assert e[1..] == ToLower(s);
    assert forall i :: 0 <= i < |s| ==> ToLower(s)[i] == ToLowerChar(s[i]) && s[i] != '.';
  }

  /** The extension is the lower-cased text after the last dot. */
  lemma ExtensionAfterLastDot(stem: string, ext: string)
    requires '.' !in ext
    ensures FileExtension(stem + "." + ext) == "." + ToLower(ext)
  {
    var parts := Split(stem + "." + ext, '.');
    LastPiece(stem, ext, '.');
    assert parts[|parts| - 1] == ext;
  }

  /** A name without a dot is its own extension. */
  lemma ExtensionWithoutDot(name: string)
    requires '.' !in name
    ensures FileExtension(name) == "." + ToLower(name)
  {
    SplitNoSeparator(name, '.');
  }

  /** `validateFile(file)`: the size is checked first, then the extension. */
  function ValidateFile(cfg: Config, file: FileInfo): (v: Validation)
    ensures v == FileTooLarge <==> file.size > cfg.maxFileSize
    ensures v == InvalidFileType <==>
      file.size <= cfg.maxFileSize && FileExtension(file.name) !in cfg.allowedFileTypes
    ensures v == Accepted <==>
      file.size <= cfg.maxFileSize && FileExtension(file.name) in cfg.allowedFileTypes
  {
    if file.size > cfg.maxFileSize then FileTooLarge
    else if FileExtension(file.name) !in cfg.allowedFileTypes then InvalidFileType
    else Accepted
  }

  /** With the defaults, a file named `<stem>.<ext>` is accepted exactly
      when it has at most 10 MB and its last extension is `log` or `txt` in
      any case of the ASCII letters. */
  lemma DefaultValidation(stem: string, ext: string, size: int)
    requires '.' !in ext
    ensures ValidateFile(DefaultConfig, FileInfo(stem + "." + ext, size)) == Accepted
      <==> size <= 10485760 && (ToLower(ext) == "log" || ToLower(ext) == "txt")
  {
    var e := ToLower(ext);
    assert FileExtension(stem + "." + ext) == "." + e by {
      ExtensionAfterLastDot(stem, ext);
    }
    assert "." + e in DefaultConfig.allowedFileTypes <==> e == "log" || e == "txt" by {
      assert ("." + e == ".log") <==> e == "log" by {
        if "." + e == ".log" { assert e == ("." + e)[1..]; }
      }
      assert ("." + e == ".txt") <==> e == "txt" by {
        if "." + e == ".txt" { assert e == ("." + e)[1..]; }
      }
    }
  }

  /** An upper-case `.LOG` file is accepted with the defaults; a compressed log is not. */
  lemma DefaultValidationExamples()
    ensures ValidateFile(DefaultConfig, FileInfo("server.LOG", 1024)) == Accepted
    ensures ValidateFile(DefaultConfig, FileInfo("server.log.gz", 1024)) == InvalidFileType
  {
    DefaultValidation("server", "LOG", 1024);
    assert "server" + "." + "LOG" == "server.LOG";
    assert ToLower("LOG") == "log";
    DefaultValidation("server.log", "gz", 1024);
    assert "server.log" + "." + "gz" == "server.log.gz";
    assert |ToLower("gz")| == 2;
  }

  // ---------------------------------------------------------------- timestamps

  /** The largest distance from the epoch, in milliseconds, that a `Date`
      can hold (TimeClip, section 21.4.1.31 of ECMA-262). */
  const MaxTimeValue: real := 8640000000000000.0

  /** Rounding toward zero, as ToIntegerOrInfinity does. */
  function Truncate(x: real): (n: int)
    ensures -1.0 < x - n as real < 1.0
    ensures x >= 0.0 ==> n >= 0
  {
    if x >= 0.0 then x.Floor else -((-x).Floor)
  }

  /** The time value of `new Date(t * 1000)`, or None for an invalid Date
      (NaN, an infinity, or a value beyond MaxTimeValue). */
  function DateMillis(t: Num): Option<int>
  {
    match t
    case Finite(x) =>
      var ms := x * 1000.0;
      if ms > MaxTimeValue || ms < -MaxTimeValue then None else Some(Truncate(ms))
    case _ => None
  }

  /** `s.substr(0, n)`. */
  function Prefix(s: string, n: nat): string
  {
    if |s| <= n then s else s[..n]
  }

  /** `formatTimestamp(t)`: `toISOString()` with the `T` replaced by a space
      and cut after the seconds; None when `toISOString` throws. */
  function FormatTimestamp(t: Num): (r: Option<string>)
    ensures r.None? <==> DateMillis(t).None?
    ensures r.Some? ==> |r.value| == 19
  {
    match DateMillis(t)
    case None => None
    case Some(ms) => Some(Prefix(ReplaceFirst(IsoString(DateTimeOf(ms)), 'T', ' '), 19))
  }

  /** `YYYY-MM-DD HH:mm:ss`. */
  function DisplayText(t: DateTime): string
    requires ValidDateTime(t) && 0 <= t.date.year
  {
    ZeroPadded(t.date.year, 4) + "-" + ZeroPadded(t.date.month, 2) + "-" + ZeroPadded(t.date.day, 2)
    + " " + ZeroPadded(t.hour, 2) + ":" + ZeroPadded(t.minute, 2) + ":" + ZeroPadded(t.second, 2)
  }

  /** Cutting an ISO text with a four-digit year after the seconds, with the
      `T` made a space, keeps its date and its time of day to the second. */
  lemma IsoShape(y: string, mo: string, d: string, h: string, mi: string, se: string, ms: string)
    requires |y| == 4 && |mo| == 2 && |d| == 2 && |h| == 2 && |mi| == 2 && |se| == 2
    requires AllDigits(y) && AllDigits(mo) && AllDigits(d)
    ensures Prefix(ReplaceFirst(y + "-" + mo + "-" + d + "T" + h + ":" + mi + ":" + se + "." + ms + "Z", 'T', ' '), 19)
      == y + "-" + mo + "-" + d + " " + h + ":" + mi + ":" + se
  {
    var head := y + "-" + mo + "-" + d;
    var clock := h + ":" + mi + ":" + se;
    var tail := clock + "." + ms + "Z";
    assert y + "-" + mo + "-" + d + "T" + h + ":" + mi + ":" + se + "." + ms + "Z" == head + ['T'] + tail;
    forall i | 0 <= i < |head| ensures head[i] != 'T' {
      if i < 4 {
        assert head[i] == y[i];
      } else if 5 <= i < 7 {
        assert head[i] == mo[i - 5];
      } else if 8 <= i {
        assert head[i] == d[i - 8];
      }
    }
    ReplaceFirstAfter(head, 'T', ' ', tail);
    assert (head + [' '] + tail)[..19] == head + " " + clock;
  }

  /** The pieces of a `YYYY-MM-DD HH:mm:ss` text sit at fixed positions. */
  lemma DisplaySlices(y: string, mo: string, d: string, h: string, mi: string, se: string)
    requires |y| == 4 && |mo| == 2 && |d| == 2 && |h| == 2 && |mi| == 2 && |se| == 2
    ensures var s := y + "-" + mo + "-" + d + " " + h + ":" + mi + ":" + se;
      |s| == 19 && s[0..4] == y && s[5..7] == mo && s[8..10] == d
      && s[11..13] == h && s[14..16] == mi && s[17..19] == se
  {
  }

  /** For the years 0 to 9999 the formatted timestamp is the UTC date and
      time of day to the second, nineteen characters long. */
  lemma FormatTimestampText(t: Num)
    requires DateMillis(t).Some?
    requires var d := DateTimeOf(DateMillis(t).value); 0 <= d.date.year <= 9999
    ensures var d := DateTimeOf(DateMillis(t).value);
      FormatTimestamp(t) == Some(DisplayText(d)) && |DisplayText(d)| == 19
  {
    var d := DateTimeOf(DateMillis(t).value);
    var y, mo, dd := ZeroPadded(d.date.year, 4), ZeroPadded(d.date.month, 2), ZeroPadded(d.date.day, 2);
    var h, mi, se := ZeroPadded(d.hour, 2), ZeroPadded(d.minute, 2), ZeroPadded(d.second, 2);
    var ms := ZeroPadded(d.millisecond, 3);
    ZeroPaddedLength(d.date.year, 4);
    ZeroPaddedLength(d.date.month, 2);
    ZeroPaddedLength(d.date.day, 2);
    ZeroPaddedLength(d.hour, 2);
    ZeroPaddedLength(d.minute, 2);
    ZeroPaddedLength(d.second, 2);
    ZeroPaddedValue(d.date.year, 4);
    ZeroPaddedValue(d.date.month, 2);
    ZeroPaddedValue(d.date.day, 2);
    assert IsoString(d) == y + "-" + mo + "-" + dd + "T" + h + ":" + mi + ":" + se + "." + ms + "Z";
    IsoShape(y, mo, dd, h, mi, se, ms);
    DisplaySlices(y, mo, dd, h, mi, se);
  }

  /** The formatted text gives back the date and the time of day to the
      second: the digits in it read as the year, month, day, hour, minute
      and second. */
  lemma DisplayTextReadsBack(t: DateTime)
    requires ValidDateTime(t) && 0 <= t.date.year <= 9999
    ensures var s := DisplayText(t);
      |s| == 19
      && DigitsValue(s[0..4]) == t.date.year && DigitsValue(s[5..7]) == t.date.month
      && DigitsValue(s[8..10]) == t.date.day && DigitsValue(s[11..13]) == t.hour
      && DigitsValue(s[14..16]) == t.minute && DigitsValue(s[17..19]) == t.second
  {
    var y, mo, d := ZeroPadded(t.date.year, 4), ZeroPadded(t.date.month, 2), ZeroPadded(t.date.day, 2);
    var h, mi, se := ZeroPadded(t.hour, 2), ZeroPadded(t.minute, 2), ZeroPadded(t.second, 2);
    ZeroPaddedLength(t.date.year, 4);
    ZeroPaddedLength(t.date.month, 2);
    ZeroPaddedLength(t.date.day, 2);
    ZeroPaddedLength(t.hour, 2);
    ZeroPaddedLength(t.minute, 2);
    ZeroPaddedLength(t.second, 2);
    ZeroPaddedValue(t.date.year, 4);
    ZeroPaddedValue(t.date.month, 2);
    ZeroPaddedValue(t.date.day, 2);
    ZeroPaddedValue(t.hour, 2);
    ZeroPaddedValue(t.minute, 2);
    ZeroPaddedValue(t.second, 2);
    DisplaySlices(y, mo, d, h, mi, se);
  }

  /** An invalid Date makes `formatTimestamp` throw. */
  lemma FormatTimestampThrows(t: Num)
    ensures FormatTimestamp(t).None? <==>
      !t.Finite? || t.value * 1000.0 > MaxTimeValue || t.value * 1000.0 < -MaxTimeValue
  {
  }

  // ---------------------------------------------------------------- one line

  const RobustMarker: string := "Robust - stats"
  const OverloadMarker: string := "crp::OverloadManager"
  const AcceptsPrefix: string := "Accepts: http/https "
  const ClientPrefix: string := "client: in-progress "
  const TriggerPrefix: string := "trigger_pct:"
  const DenyPrefix: string := "deny_pct:"

  /** The record built from one line. Which keys it carries depends on the
      kind of line: a Robust stats line always has the three counters, an
      OverloadManager line has a percentage only where its pattern matched,
      and an unrecognised line has only its timestamp. */
  datatype Fields =
    | RobustFields(http: nat, https: nat, clientInProgress: nat)
    | OverloadFields(triggerPct: Option<Num>, denyPct: Option<Num>)
    | NoFields

  datatype Entry = Entry(timestamp: Num, timestampFormatted: string, fields: Fields)

  /** `'http' in entry`. */
  predicate HasHttp(e: Entry) { e.fields.RobustFields? }

  /** `'triggerPct' in entry`. */
  predicate HasTriggerPct(e: Entry) { e.fields.OverloadFields? && e.fields.triggerPct.Some? }

  /** `'runQ' in entry`: no record built from a line has that key. */
  predicate HasRunQ(e: Entry) { false }

  /** `/Accepts: http\/https (\d+)\//` tried at position i: the digits of the
      first counter, which must be followed by a slash. */
  function HttpAt(line: string, i: nat): Option<string>
  {
    if !LiteralAt(line, i, AcceptsPrefix) then None
    else
      var j := i + |AcceptsPrefix|;
      var k := DigitsEnd(line, j);
      if j < k < |line| && line[k] == '/' then Some(line[j..k]) else None
  }

  /** `/Accepts: http\/https \d+\/(\d+)/` tried at position i: the digits after the slash. */
  function HttpsAt(line: string, i: nat): Option<string>
  {
    if !LiteralAt(line, i, AcceptsPrefix) then None
    else
      var j := i + |AcceptsPrefix|;
      var k := DigitsEnd(line, j);
      if j < k < |line| && line[k] == '/' then
        var l := DigitsEnd(line, k + 1);
        if l > k + 1 then Some(line[k + 1..l]) else None
      else None
  }

  /** `/client: in-progress (\d+)/` tried at position i. */
  function ClientAt(line: string, i: nat): Option<string>
  {
    if !LiteralAt(line, i, ClientPrefix) then None
    else
      var j := i + |ClientPrefix|;
      var k := DigitsEnd(line, j);
      if k > j then Some(line[j..k]) else None
  }

  /** `/<tag>(\d+\.\d+)%/` tried at position i. */
  function PercentAt(tag: string, line: string, i: nat): Option<string>
  {
    if !LiteralAt(line, i, tag) then None
    else
      var j := i + |tag|;
      var k := DigitsEnd(line, j);
      if j < k < |line| && line[k] == '.' then
        var l := DigitsEnd(line, k + 1);
        if k + 1 < l < |line| && line[l] == '%' then Some(line[j..l]) else None
      else None
  }

  function TriggerAt(line: string, i: nat): Option<string> { PercentAt(TriggerPrefix, line, i) }

  function DenyAt(line: string, i: nat): Option<string> { PercentAt(DenyPrefix, line, i) }

  /** `extractValue(regex)`: `parseInt` of the group of the leftmost match, 0 when nothing matches. */
  function ExtractCount(line: string, pattern: (string, nat) -> Option<string>): nat
  {
    match FirstMatch(line, 0, pattern)
    case Some((_, digits)) => DigitsValue(digits)
    case None => 0
  }

  /** `parseFloat` of the group of the leftmost match, when there is one. */
  function ExtractPercent(line: string, pattern: (string, nat) -> Option<string>): Option<Num>
  {
    match FirstMatch(line, 0, pattern)
    case Some((_, text)) => Some(ParseFloat(text))
    case None => None
  }

  /** `parseFloat(line.split('|')[0])`. */
  function LineTimestamp(line: string): Num
  {
    ParseFloat(Split(line, '|')[0])
  }

  /** `parseLogLine(line)`: None for `null`, which is returned for an
      unrecognised line under strict parsing and for a recognised line
      whose timestamp `formatTimestamp` cannot format (the exception is
      caught). The Robust stats marker is looked for first. */
  function ParseLogLine(cfg: Config, line: string): (r: Option<Entry>)
    ensures r.Some? ==> r.value.timestamp == LineTimestamp(line)
    ensures Contains(line, RobustMarker) ==> r.None? || r.value.fields.RobustFields?
    ensures !Contains(line, RobustMarker) && Contains(line, OverloadMarker) ==>
      r.None? || r.value.fields.OverloadFields?
    ensures r.Some? && r.value.fields.NoFields? ==>
      !cfg.strictParsing && r.value.timestampFormatted == ""
    ensures r.Some? && !r.value.fields.NoFields? ==>
      FormatTimestamp(r.value.timestamp) == Some(r.value.timestampFormatted)
  {
    var ts := LineTimestamp(line);
    if Contains(line, RobustMarker) then
      match FormatTimestamp(ts)
      case None => None
      case Some(text) =>
        Some(Entry(ts, text, RobustFields(
          ExtractCount(line, HttpAt), ExtractCount(line, HttpsAt), ExtractCount(line, ClientAt))))
    else if Contains(line, OverloadMarker) then
      match FormatTimestamp(ts)
      case None => None
      case Some(text) =>
        Some(Entry(ts, text, OverloadFields(ExtractPercent(line, TriggerAt), ExtractPercent(line, DenyAt))))
    else if cfg.strictParsing then None
    else Some(Entry(ts, "", NoFields))
  }

  /** The timestamp of a record is read from the text before the first `|`
      alone, whatever the rest of the line holds. */
  lemma TimestampBeforeFirstBar(cfg: Config, stamp: string, rest: string)
    requires '|' !in stamp
    ensures var r := ParseLogLine(cfg, stamp + "|" + rest); r.Some? ==> r.value.timestamp == ParseFloat(stamp)
  {
    FirstPiece(stamp, rest, '|');
  }

  /** A line with the Robust stats marker yields a Robust stats record
      (even when it also has the OverloadManager marker) exactly when its
      timestamp can be formatted; the record carries the formatted time. */
  lemma RobustLine(cfg: Config, line: string)
    requires Contains(line, RobustMarker)
    ensures var r := ParseLogLine(cfg, line);
      (r.Some? <==> FormatTimestamp(LineTimestamp(line)).Some?)
      && (r.Some? ==> HasHttp(r.value) && !HasTriggerPct(r.value)
                      && r.value.timestampFormatted == FormatTimestamp(LineTimestamp(line)).value)
  {
  }

  /** A counter whose pattern is absent from a Robust stats line is 0. */
  lemma RobustCountersDefaultToZero(cfg: Config, line: string)
    requires Contains(line, RobustMarker)
    ensures var r := ParseLogLine(cfg, line);
      r.Some? ==>
        (!Contains(line, AcceptsPrefix) ==> r.value.fields.http == 0 && r.value.fields.https == 0)
        && (!Contains(line, ClientPrefix) ==> r.value.fields.clientInProgress == 0)
  {
    if !Contains(line, AcceptsPrefix) {
      NoPrefixNoMatch(line, AcceptsPrefix, HttpAt);
      NoPrefixNoMatch(line, AcceptsPrefix, HttpsAt);
    }
    if !Contains(line, ClientPrefix) {
      NoPrefixNoMatch(line, ClientPrefix, ClientAt);
    }
  }

  /** A pattern that begins with a literal cannot match where the literal does not occur. */
  lemma NoPrefixNoMatch(line: string, prefix: string, pattern: (string, nat) -> Option<string>)
    requires !Contains(line, prefix)
    requires forall i :: pattern(line, i).Some? ==> LiteralAt(line, i, prefix)
    ensures FirstMatch(line, 0, pattern).None?
  {
    ContainsIff(line, prefix);
    assert forall i :: 0 <= i <= |line| ==> pattern(line, i).None?;
    FirstMatchNone(line, 0, pattern);
  }

  /** An OverloadManager line (without the Robust stats marker) yields a
      record exactly when its timestamp can be formatted; that record has a
      trigger percentage exactly when `trigger_pct:<digits>.<digits>%`
      occurs in the line, and likewise for the deny percentage. */
  lemma OverloadLine(cfg: Config, line: string)
    requires !Contains(line, RobustMarker) && Contains(line, OverloadMarker)
    ensures var r := ParseLogLine(cfg, line);
      (r.Some? <==> FormatTimestamp(LineTimestamp(line)).Some?)
      && (r.Some? ==>
            (!HasHttp(r.value)
             && (HasTriggerPct(r.value) <==> exists i :: 0 <= i <= |line| && TriggerAt(line, i).Some?)
             && (r.value.fields.denyPct.Some? <==> exists i :: 0 <= i <= |line| && DenyAt(line, i).Some?)))
  {
    var ts := LineTimestamp(line);
    assert ParseLogLine(cfg, line) == match FormatTimestamp(ts)
      case None => None
      case Some(text) =>
        Some(Entry(ts, text, OverloadFields(ExtractPercent(line, TriggerAt), ExtractPercent(line, DenyAt))));
    PercentFound(line, TriggerAt);
    PercentFound(line, DenyAt);
  }

  /** A percentage is extracted exactly when its pattern matches somewhere. */
  lemma PercentFound(line: string, pattern: (string, nat) -> Option<string>)
    ensures ExtractPercent(line, pattern).Some? <==> exists i :: 0 <= i <= |line| && pattern(line, i).Some?
  {
    if FirstMatch(line, 0, pattern).None? {
      assert forall i :: 0 <= i <= |line| ==> pattern(line, i).None?;
    }
  }

  /** The counters are read from the leftmost `Accepts: http/https <n>/<m>`:
      `http` is n and `https` is m. */
  lemma AcceptsCounters(line: string, pre: string, http: nat, https: nat, rest: string)
    requires line == pre + AcceptsPrefix + DecimalDigits(http) + "/" + DecimalDigits(https) + rest
    requires rest == [] || !IsDigit(rest[0])
    requires forall j :: 0 <= j < |pre| ==> !LiteralAt(line, j, AcceptsPrefix)
    ensures ExtractCount(line, HttpAt) == http && ExtractCount(line, HttpsAt) == https
  {
    var da, db := DecimalDigits(http), DecimalDigits(https);
    var i := |pre|;
    AcceptsAt(line, pre, da, db, rest);
    forall x | 0 <= x < i ensures HttpAt(line, x).None? && HttpsAt(line, x).None? {
      assert !LiteralAt(line, x, AcceptsPrefix);
    }
    FirstMatchAt(line, 0, i, HttpAt);
    FirstMatchAt(line, 0, i, HttpsAt);
    DecimalDigitsValue(http);
    DecimalDigitsValue(https);
  }

  /** Both counter patterns match where `Accepts: http/https <n>/<m>` begins. */
  lemma AcceptsAt(line: string, pre: string, da: string, db: string, rest: string)
    requires line == pre + AcceptsPrefix + da + "/" + db + rest
    requires |da| >= 1 && AllDigits(da) && |db| >= 1 && AllDigits(db)
    requires rest == [] || !IsDigit(rest[0])
    ensures HttpAt(line, |pre|) == Some(da) && HttpsAt(line, |pre|) == Some(db)
  {
    var i := |pre|;
    var j := i + |AcceptsPrefix|;
    var k := j + |da|;
    var l := k + 1 + |db|;
    assert line[i..j] == AcceptsPrefix;
    assert line[j..k] == da;
    assert line[k] == '/';
    DigitRunAt(line, j, da);
    assert line[k + 1..l] == db;
    assert l < |line| ==> line[l] == rest[0];
    DigitRunAt(line, k + 1, db);
  }

  /** `clientInProgress` is the number after the leftmost `client: in-progress `. */
  lemma ClientCounter(line: string, pre: string, count: nat, rest: string)
    requires line == pre + ClientPrefix + DecimalDigits(count) + rest
    requires rest == [] || !IsDigit(rest[0])
    requires forall j :: 0 <= j < |pre| ==> !LiteralAt(line, j, ClientPrefix)
    ensures ExtractCount(line, ClientAt) == count
  {
    var dc := DecimalDigits(count);
    var i := |pre|;
    var j := i + |ClientPrefix|;
    var k := j + |dc|;
    assert line[i..j] == ClientPrefix;
    assert line[j..k] == dc;
    assert k < |line| ==> line[k] == rest[0];
    DigitRunAt(line, j, dc);
    assert ClientAt(line, i) == Some(dc);
    forall x | 0 <= x < i ensures ClientAt(line, x).None? {
      assert !LiteralAt(line, x, ClientPrefix);
    }
    FirstMatchAt(line, 0, i, ClientAt);
    DecimalDigitsValue(count);
  }

  /** `/<tag>(\d+\.\d+)%/`: the percentage is the decimal number after the
      leftmost `<tag>` that is followed by `<digits>.<digits>%`. */
  lemma PercentValue(tag: string, pattern: (string, nat) -> Option<string>,
                     line: string, pre: string, whole: string, fraction: string, rest: string)
    requires forall i :: pattern(line, i) == PercentAt(tag, line, i)
    requires line == pre + tag + whole + "." + fraction + "%" + rest
    requires |whole| >= 1 && AllDigits(whole) && |fraction| >= 1 && AllDigits(fraction)
    requires forall j :: 0 <= j < |pre| ==> PercentAt(tag, line, j).None?
    ensures ExtractPercent(line, pattern) == Some(Finite(FractionValue(whole, fraction)))
  {
    var i := |pre|;
    var j := i + |tag|;
    var k := j + |whole|;
    var l := k + 1 + |fraction|;
    assert line[i..j] == tag;
    assert line[j..k] == whole;
    assert line[k] == '.';
    DigitRunAt(line, j, whole);
    assert line[k + 1..l] == fraction;
    assert line[l] == '%';
    DigitRunAt(line, k + 1, fraction);
    assert line[j..l] == whole + "." + fraction;
    assert pattern(line, i) == Some(whole + "." + fraction);
    FirstMatchAt(line, 0, i, pattern);
    ParseFloatFraction(whole, fraction);
  }

  /** `triggerPct` is the decimal number of the leftmost complete `trigger_pct:<d+.d+>%`. */
  lemma TriggerPercent(line: string, pre: string, whole: string, fraction: string, rest: string)
    requires line == pre + TriggerPrefix + whole + "." + fraction + "%" + rest
    requires |whole| >= 1 && AllDigits(whole) && |fraction| >= 1 && AllDigits(fraction)
    requires forall j :: 0 <= j < |pre| ==> TriggerAt(line, j).None?
    ensures ExtractPercent(line, TriggerAt) == Some(Finite(FractionValue(whole, fraction)))
  {
    PercentValue(TriggerPrefix, TriggerAt, line, pre, whole, fraction, rest);
  }

  /** `denyPct` is the decimal number of the leftmost complete `deny_pct:<d+.d+>%`. */
  lemma DenyPercent(line: string, pre: string, whole: string, fraction: string, rest: string)
    requires line == pre + DenyPrefix + whole + "." + fraction + "%" + rest
    requires |whole| >= 1 && AllDigits(whole) && |fraction| >= 1 && AllDigits(fraction)
    requires forall j :: 0 <= j < |pre| ==> DenyAt(line, j).None?
    ensures ExtractPercent(line, DenyAt) == Some(Finite(FractionValue(whole, fraction)))
  {
    PercentValue(DenyPrefix, DenyAt, line, pre, whole, fraction, rest);
  }

  /** A line with neither marker is dropped under strict parsing; otherwise
      it yields a record with only its timestamp and an empty formatted time. */
  lemma UnrecognisedLine(cfg: Config, line: string)
    requires !Contains(line, RobustMarker) && !Contains(line, OverloadMarker)
    ensures cfg.strictParsing ==> ParseLogLine(cfg, line).None?
    ensures !cfg.strictParsing ==> ParseLogLine(cfg, line) == Some(Entry(LineTimestamp(line), "", NoFields))
  {
  }

  // ---------------------------------------------------------------- the dataset

  /** `line.trim() !== ''`. */
  predicate NonBlank(line: string) { !IsBlank(line) }

  /** `fileContent.split('\n').filter(line => line.trim() !== '')`: the
      lines of the file, without the blank ones. */
  function Lines(content: string): (lines: seq<string>)
    ensures forall k :: 0 <= k < |lines| ==> NonBlank(lines[k]) && '\n' !in lines[k]
  {
    var pieces := Split(content, '\n');
    var lines := Filter(pieces, NonBlank);
    assert forall k :: 0 <= k < |lines| ==> exists i :: 0 <= i < |pieces| && pieces[i] == lines[k];
    lines
  }

  /** Joining non-blank lines with newlines and splitting the text again
      gives the same lines, in the same order. */
  lemma LinesRoundTrip(lines: seq<string>)
    requires |lines| >= 1
    requires forall k :: 0 <= k < |lines| ==> NonBlank(lines[k]) && '\n' !in lines[k]
    ensures Lines(Join(lines, '\n')) == lines
  {
    SplitJoin(lines, '\n');
    FilterAll(lines, NonBlank);
  }

  /** A blank line between two texts is dropped. */
  lemma BlankLineDropped(before: seq<string>, blank: string, after: seq<string>)
    requires |before| >= 1 && |after| >= 1 && IsBlank(blank) && '\n' !in blank
    requires forall k :: 0 <= k < |before| ==> NonBlank(before[k]) && '\n' !in before[k]
    requires forall k :: 0 <= k < |after| ==> NonBlank(after[k]) && '\n' !in after[k]
    ensures Lines(Join(before + [blank] + after, '\n')) == before + after
  {
    var all := before + [blank] + after;
    NoNewlineIn(before, blank, after);
    SplitJoin(all, '\n');
    FilterSkip(before, blank, after, NonBlank);
    FilterAll(before, NonBlank);
    FilterAll(after, NonBlank);
  }

  lemma NoNewlineIn(before: seq<string>, line: string, after: seq<string>)
    requires '\n' !in line
    requires forall k :: 0 <= k < |before| ==> '\n' !in before[k]
    requires forall k :: 0 <= k < |after| ==> '\n' !in after[k]
    ensures forall p :: p in before + [line] + after ==> '\n' !in p
  {
    var all := before + [line] + after;
    forall k | 0 <= k < |all| ensures '\n' !in all[k] {
      if k < |before| {
        assert all[k] == before[k];
      } else if k > |before| {
        assert all[k] == after[k - |before| - 1];
      }
    }
  }

  /** What one line contributes to `robustStats`. */
  function RobustRecord(cfg: Config, line: string): Option<Entry>
  {
    var r := ParseLogLine(cfg, line);
    if r.Some? && HasHttp(r.value) then r else None
  }

  /** What one line contributes to `overloadManager`. */
  function OverloadRecord(cfg: Config, line: string): Option<Entry>
  {
    var r := ParseLogLine(cfg, line);
    if r.Some? && HasTriggerPct(r.value) then r else None
  }

  function RobustOf(cfg: Config): string -> Option<Entry> { line => RobustRecord(cfg, line) }

  function OverloadOf(cfg: Config): string -> Option<Entry> { line => OverloadRecord(cfg, line) }

  datatype TimeRange = TimeRange(start: Num, end: Num)

  datatype Dataset = Dataset(
    robustStats: seq<Entry>,
    overloadManager: seq<Entry>,
    addCandidateTargets: seq<Entry>,
    processMainLoops: seq<Entry>,
    timeRange: TimeRange)

  /** `s[0]?.timestamp || Infinity`. */
  function FirstTimestamp(s: seq<Entry>): Num
  {
    if |s| == 0 then PosInfinity else OrElse(s[0].timestamp, PosInfinity)
  }

  /** `s[s.length - 1]?.timestamp || -Infinity`. */
  function LastTimestamp(s: seq<Entry>): Num
  {
    if |s| == 0 then NegInfinity else OrElse(s[|s| - 1].timestamp, NegInfinity)
  }

  /** The time range: the earlier of the two first records and the later
      of the two last records, chosen by position in each collection. */
  function TimeRangeOf(robustStats: seq<Entry>, overloadManager: seq<Entry>): (tr: TimeRange)
    ensures !tr.start.NaN? && !tr.end.NaN?
    ensures AtMost(tr.start, FirstTimestamp(robustStats)) && AtMost(tr.start, FirstTimestamp(overloadManager))
    ensures AtMost(LastTimestamp(robustStats), tr.end) && AtMost(LastTimestamp(overloadManager), tr.end)
    ensures robustStats == [] && overloadManager == [] ==> tr == TimeRange(PosInfinity, NegInfinity)
  {
    TimeRange(
      MathMin(FirstTimestamp(robustStats), FirstTimestamp(overloadManager)),
      MathMax(LastTimestamp(robustStats), LastTimestamp(overloadManager)))
  }

  /** The dataset built from the non-blank lines of a file. */
  function DatasetOf(cfg: Config, lines: seq<string>): (d: Dataset)
    ensures d.addCandidateTargets == d.overloadManager
    ensures d.processMainLoops == []
  {
    var robustStats := Collect(lines, RobustOf(cfg));
    var overloadManager := Collect(lines, OverloadOf(cfg));
    CollectAll(lines, OverloadOf(cfg), HasTriggerPct);
    FilterAll(overloadManager, HasTriggerPct);
    FilterNone(overloadManager, HasRunQ);
    Dataset(robustStats, overloadManager, Filter(overloadManager, HasTriggerPct),
            Filter(overloadManager, HasRunQ), TimeRangeOf(robustStats, overloadManager))
  }

  /** `parseLogFile(file)` once the file's text is read: validation first,
      then one pass over the non-blank lines that pushes each record into
      the collection its keys select. */
  method ParseLogFile(cfg: Config, file: FileInfo, content: string) returns (r: Result<Dataset, Validation>)
    ensures ValidateFile(cfg, file) != Accepted ==> r == Failure(ValidateFile(cfg, file))
    ensures ValidateFile(cfg, file) == Accepted ==> r == Success(DatasetOf(cfg, Lines(content)))
  {
    var verdict := ValidateFile(cfg, file);
    if verdict != Accepted {
      return Failure(verdict);
    }
    var lines := Lines(content);
    var robustStats, overloadManager := CollectRecords(cfg, lines);
    var dataset := Dataset(robustStats, overloadManager, Filter(overloadManager, HasTriggerPct),
                           Filter(overloadManager, HasRunQ), TimeRangeOf(robustStats, overloadManager));
    assert dataset == DatasetOf(cfg, lines);
    r := Success(dataset);
  }

  /** The `forEach` pass of `parseLogFile`: each line is parsed once and its
      record pushed into `robustStats` when it has `http` and into
      `overloadManager` when it has `triggerPct`. */
  method CollectRecords(cfg: Config, lines: seq<string>) returns (robustStats: seq<Entry>, overloadManager: seq<Entry>)
    ensures robustStats == Collect(lines, RobustOf(cfg))
    ensures overloadManager == Collect(lines, OverloadOf(cfg))
  {
    robustStats, overloadManager := [], [];
    for i := 0 to |lines|
      invariant robustStats == Collect(lines[..i], RobustOf(cfg))
      invariant overloadManager == Collect(lines[..i], OverloadOf(cfg))
    {
      ghost var robustBefore, overloadBefore := robustStats, overloadManager;
      var parsedEntry := ParseLogLine(cfg, lines[i]);
      if parsedEntry.Some? {
        if HasHttp(parsedEntry.value) {
          robustStats := robustStats + [parsedEntry.value];
        }
        if HasTriggerPct(parsedEntry.value) {
          overloadManager := overloadManager + [parsedEntry.value];
        }
      }
      PushStep(cfg, lines, i, parsedEntry, robustBefore, robustStats, overloadBefore, overloadManager);
    }
    assert lines[..|lines|] == lines;
  }

  /** One more line adds its parsed record to the collections its keys select. */
  lemma PushStep(cfg: Config, lines: seq<string>, i: nat, e: Option<Entry>,
                 robust: seq<Entry>, robust': seq<Entry>, overload: seq<Entry>, overload': seq<Entry>)
    requires i < |lines| && e == ParseLogLine(cfg, lines[i])
    requires robust == Collect(lines[..i], RobustOf(cfg)) && overload == Collect(lines[..i], OverloadOf(cfg))
    requires robust' == robust + (if e.Some? && HasHttp(e.value) then [e.value] else [])
    requires overload' == overload + (if e.Some? && HasTriggerPct(e.value) then [e.value] else [])
    ensures robust' == Collect(lines[..i + 1], RobustOf(cfg))
    ensures overload' == Collect(lines[..i + 1], OverloadOf(cfg))
  {
    CollectStep(lines, i, RobustOf(cfg));
    CollectStep(lines, i, OverloadOf(cfg));
    assert RobustOf(cfg)(lines[i]) == RobustRecord(cfg, lines[i]);
    assert OverloadOf(cfg)(lines[i]) == OverloadRecord(cfg, lines[i]);
  }

  // ---------------------------------------------------------------- properties of the dataset

  /** Lines are processed one after another and independently: the records
      from a text are those from its first part followed by those from the rest. */
  lemma LinesIndependent(cfg: Config, a: seq<string>, b: seq<string>)
    ensures DatasetOf(cfg, a + b).robustStats == DatasetOf(cfg, a).robustStats + DatasetOf(cfg, b).robustStats
    ensures DatasetOf(cfg, a + b).overloadManager
      == DatasetOf(cfg, a).overloadManager + DatasetOf(cfg, b).overloadManager
  {
    CollectAppend(a, b, RobustOf(cfg));
    CollectAppend(a, b, OverloadOf(cfg));
  }

  /** A line for which `parseLogLine` returns null (unrecognised, or whose
      timestamp cannot be formatted) adds nothing, and the lines after it
      are processed as if it were not there. */
  lemma UnparsedLineSkipped(cfg: Config, a: seq<string>, line: string, b: seq<string>)
    requires ParseLogLine(cfg, line).None?
    ensures DatasetOf(cfg, a + [line] + b).robustStats == DatasetOf(cfg, a + b).robustStats
    ensures DatasetOf(cfg, a + [line] + b).overloadManager == DatasetOf(cfg, a + b).overloadManager
  {
    assert RobustOf(cfg)(line).None? && OverloadOf(cfg)(line).None?;
    CollectSkip(a, line, b, RobustOf(cfg));
    CollectSkip(a, line, b, OverloadOf(cfg));
    CollectAppend(a, b, RobustOf(cfg));
    CollectAppend(a, b, OverloadOf(cfg));
  }

  /** Each record of `robustStats` is the record of a line, in line order,
      and every line whose record has `http` is there. */
  lemma RobustStatsExactly(cfg: Config, lines: seq<string>)
    ensures var rs, idx := DatasetOf(cfg, lines).robustStats, CollectedIndices(lines, RobustOf(cfg));
      |idx| == |rs|
      && (forall k :: 0 <= k < |rs| ==> ParseLogLine(cfg, lines[idx[k]]) == Some(rs[k]) && HasHttp(rs[k]))
      && (forall i :: 0 <= i < |lines| && RobustRecord(cfg, lines[i]).Some? ==> i in idx)
  {
    CollectExactly(lines, RobustOf(cfg));
    var rs, idx := DatasetOf(cfg, lines).robustStats, CollectedIndices(lines, RobustOf(cfg));
    forall k | 0 <= k < |rs| ensures ParseLogLine(cfg, lines[idx[k]]) == Some(rs[k]) && HasHttp(rs[k]) {
      assert rs[k] == RobustRecord(cfg, lines[idx[k]]).value;
    }
  }

  /** Each record of `overloadManager` is the record of a line, in line
      order, and every line whose record has `triggerPct` is there. */
  lemma OverloadManagerExactly(cfg: Config, lines: seq<string>)
    ensures var om, idx := DatasetOf(cfg, lines).overloadManager, CollectedIndices(lines, OverloadOf(cfg));
      |idx| == |om|
      && (forall k :: 0 <= k < |om| ==> ParseLogLine(cfg, lines[idx[k]]) == Some(om[k]) && HasTriggerPct(om[k]))
      && (forall i :: 0 <= i < |lines| && OverloadRecord(cfg, lines[i]).Some? ==> i in idx)
  {
    CollectExactly(lines, OverloadOf(cfg));
    var om, idx := DatasetOf(cfg, lines).overloadManager, CollectedIndices(lines, OverloadOf(cfg));
    forall k | 0 <= k < |om| ensures ParseLogLine(cfg, lines[idx[k]]) == Some(om[k]) && HasTriggerPct(om[k]) {
      assert om[k] == OverloadRecord(cfg, lines[idx[k]]).value;
    }
  }

  /** No record is in both collections: those of `robustStats` have `http`
      and no `triggerPct`, those of `overloadManager` the other way round. */
  lemma NoRecordInBoth(cfg: Config, lines: seq<string>)
    ensures var d := DatasetOf(cfg, lines);
      (forall k :: 0 <= k < |d.robustStats| ==> HasHttp(d.robustStats[k]) && !HasTriggerPct(d.robustStats[k]))
      && (forall k :: 0 <= k < |d.overloadManager| ==>
            HasTriggerPct(d.overloadManager[k]) && !HasHttp(d.overloadManager[k]))
      && (forall k, m :: 0 <= k < |d.robustStats| && 0 <= m < |d.overloadManager| ==>
            d.robustStats[k] != d.overloadManager[m])
  {
    CollectAll(lines, RobustOf(cfg), HasHttp);
    CollectAll(lines, OverloadOf(cfg), HasTriggerPct);
  }

  /** Every collected record has a finite timestamp and carries its formatted text. */
  lemma CollectedRecordsFormatted(cfg: Config, lines: seq<string>)
    ensures var d := DatasetOf(cfg, lines);
      (forall k :: 0 <= k < |d.robustStats| ==>
         d.robustStats[k].timestamp.Finite?
         && FormatTimestamp(d.robustStats[k].timestamp) == Some(d.robustStats[k].timestampFormatted))
      && (forall k :: 0 <= k < |d.overloadManager| ==>
         d.overloadManager[k].timestamp.Finite?
         && FormatTimestamp(d.overloadManager[k].timestamp) == Some(d.overloadManager[k].timestampFormatted))
  {
    CollectAll(lines, RobustOf(cfg), Formatted);
    CollectAll(lines, OverloadOf(cfg), Formatted);
  }

  predicate Formatted(e: Entry)
  {
    e.timestamp.Finite? && FormatTimestamp(e.timestamp) == Some(e.timestampFormatted)
  }

  /** Strict or lenient parsing gives the same dataset: a bare record kept
      for an unrecognised line has neither `http` nor `triggerPct`. */
  lemma StrictnessIrrelevant(cfg: Config, lines: seq<string>)
    ensures DatasetOf(cfg, lines) == DatasetOf(cfg.(strictParsing := !cfg.strictParsing), lines)
  {
    var other := cfg.(strictParsing := !cfg.strictParsing);
    forall i | 0 <= i < |lines|
      ensures RobustOf(cfg)(lines[i]) == RobustOf(other)(lines[i])
      ensures OverloadOf(cfg)(lines[i]) == OverloadOf(other)(lines[i])
    {
      RecordsIgnoreStrictness(cfg, other, lines[i]);
    }
    CollectCongruent(lines, RobustOf(cfg), RobustOf(other));
    CollectCongruent(lines, OverloadOf(cfg), OverloadOf(other));
  }

  lemma RecordsIgnoreStrictness(cfg: Config, other: Config, line: string)
    ensures RobustRecord(cfg, line) == RobustRecord(other, line)
    ensures OverloadRecord(cfg, line) == OverloadRecord(other, line)
  {
    if Contains(line, RobustMarker) || Contains(line, OverloadMarker) {
      RecognisedIgnoresConfig(cfg, other, line);
    } else {
      UnrecognisedLine(cfg, line);
      UnrecognisedLine(other, line);
    }
  }

  /** A recognised line parses the same under every configuration. */
  lemma RecognisedIgnoresConfig(cfg: Config, other: Config, line: string)
    requires Contains(line, RobustMarker) || Contains(line, OverloadMarker)
    ensures ParseLogLine(cfg, line) == ParseLogLine(other, line)
  {
  }

  /** The time range of no records is (Infinity, -Infinity); otherwise it
      is never NaN, the start is no later than a first record's truthy
      timestamp and the end no earlier than a last record's. */
  lemma TimeRangeBounds(robustStats: seq<Entry>, overloadManager: seq<Entry>)
    ensures var tr := TimeRangeOf(robustStats, overloadManager);
      (robustStats == [] && overloadManager == [] ==> tr == TimeRange(PosInfinity, NegInfinity))
      && !tr.start.NaN? && !tr.end.NaN?
      && (|robustStats| > 0 && !Falsy(robustStats[0].timestamp) ==> AtMost(tr.start, robustStats[0].timestamp))
      && (|overloadManager| > 0 && !Falsy(overloadManager[0].timestamp) ==>
            AtMost(tr.start, overloadManager[0].timestamp))
      && (|robustStats| > 0 && !Falsy(robustStats[|robustStats| - 1].timestamp) ==>
            AtMost(robustStats[|robustStats| - 1].timestamp, tr.end))
      && (|overloadManager| > 0 && !Falsy(overloadManager[|overloadManager| - 1].timestamp) ==>
            AtMost(overloadManager[|overloadManager| - 1].timestamp, tr.end))
  {
  }

  /** A record stamped at `t` seconds, for the worked examples. */
  function StampedAt(t: real): Entry { Entry(Finite(t), "", NoFields) }

  /** The range is taken from the first and last records by position, not
      by value; a zero timestamp counts as missing. */
  lemma TimeRangeExamples()
    ensures TimeRangeOf([StampedAt(10.0), StampedAt(30.0), StampedAt(20.0)], [StampedAt(5.0), StampedAt(40.0)])
      == TimeRange(Finite(5.0), Finite(40.0))
    ensures TimeRangeOf([StampedAt(30.0), StampedAt(10.0)], []) == TimeRange(Finite(30.0), Finite(10.0))
    ensures TimeRangeOf([StampedAt(0.0)], []) == TimeRange(PosInfinity, NegInfinity)
  {
  }
}
