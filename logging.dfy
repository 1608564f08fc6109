/**
 * globalLogHandler of CppTcpServer.cpp: how one log record becomes the line that is written.
 * A debug record is dropped unless logging is verbose; otherwise the text loses one leading and
 * one trailing double quote, the time stamp has its '-' turned into ':', TStringFormat builds the
 * line, and a '\n' is appended unless the line already ends in one of the four line endings.
 */
module Logging {
  import opened Results
  import opened StringUtil
  import F = Format

  datatype LogLevel = Debug | Info | Warn | Fatal

  /** Where a record was made: __FILE__, __LINE__ (as text) and __func__. */
  datatype LogContext = LogContext(fileName: string, sourceFileLine: string, functionName: string)

  /** std::cout, std::clog, std::cerr. */
  datatype Stream = StandardOutput | StandardLog | StandardError

  /**
   * What the handler does with a record: nothing, or write `message` to `stream`, append it to
   * the log file when `toFile`, and abort the process when `aborts`; or TStringFormat throws.
   */
  datatype LogOutcome =
    | Dropped
    | Emitted(message: string, stream: Stream, toFile: bool, aborts: bool)
    | FormatThrew(error: F.FormatError)

  function Prefix(level: LogLevel): string
  {
    match level
    case Debug => "{  Debug }: "
    case Info => "{  Info  }: "
    case Warn => "{  Warn  }: "
    case Fatal => "{  Fatal }: "
  }

  function OutputStream(level: LogLevel): Stream
  {
    match level
    case Debug => StandardLog
    case Info => StandardOutput
    case Warn => StandardOutput
    case Fatal => StandardError
  }

  // ---------------------------------------------------------------- the quotes

  /** std::string::npos. */
  const NPOS: nat := F.SIZE_T_MODULUS - 1

  /** A search result as the size_t the handler compares: the index, or npos. */
  function Position(found: Option<nat>): nat
  {
    match found
    case None => NPOS
    case Some(i) => i
  }

  /**
   * The handler's two tests: `find('"') == 0` and `find_last_of('"') == length() - 1`, the
   * latter in size_t arithmetic, so an empty text (npos against 0 - 1) passes it too.
   */
  function StripQuotes(str: string): (r: string)
    ensures |r| <= |str| && (|str| < NPOS ==> |str| <= |r| + 2)
    ensures r == str[..|r|] || (|r| < |str| && r == str[1..|r| + 1])
  {
    var afterLead := if Position(FirstIndexOf(str, '"')) == 0 then str[1..] else str;
    if Position(LastIndexOf(afterLead, '"')) == F.SizeT(|afterLead| - 1)
    then F.SubstrPrefix(afterLead, F.SizeT(|afterLead| - 1))
    else afterLead
  }

  /** What the two tests mean: drop a leading quote, then drop a trailing quote of what is left. */
  function QuotesTrimmed(str: string): string
  {
    var afterLead := if StartsWithChar(str, '"') then str[1..] else str;
    if EndsWithChar(afterLead, '"') then afterLead[..|afterLead| - 1] else afterLead
  }

  /** For every text shorter than npos, the size_t comparisons do what they mean. */
  lemma {:induction false} StripQuotesTrims(str: string)
    requires |str| < NPOS
    ensures StripQuotes(str) == QuotesTrimmed(str)
  {
    var afterLead := if Position(FirstIndexOf(str, '"')) == 0 then str[1..] else str;
    assert Position(FirstIndexOf(str, '"')) == 0 <==> StartsWithChar(str, '"') by {
      if StartsWithChar(str, '"') {
        assert FirstIndexOf(str, '"') == Some(0);
      }
    }
    if afterLead != [] {
      assert F.SizeT(|afterLead| - 1) == |afterLead| - 1;
      if EndsWithChar(afterLead, '"') {
        LastIndexOfFinds(afterLead, '"', |afterLead| - 1);
      }
    }
  }

  /** A quoted text loses exactly its two enclosing quotes, whatever quotes it holds inside. */
  lemma {:induction false} StripQuotesOfQuoted(text: string)
    requires |text| + 2 < NPOS
    ensures StripQuotes("\"" + text + "\"") == text
  {
    var quoted := "\"" + text + "\"";
    StripQuotesTrims(quoted);
    assert quoted[1..] == text + "\"";
    assert (text + "\"")[..|text|] == text;
  }

  // ---------------------------------------------------------------- the time stamp

  /** std::replace(begin, end, from, to). */
  function ReplaceChar(s: string, from: char, to: char): (r: string)
    ensures |r| == |s|
    ensures forall i :: 0 <= i < |s| ==> r[i] == if s[i] == from then to else s[i]
  {
    if s == [] then []
    else [if s[0] == from then to else s[0]] + ReplaceChar(s[1..], from, to)
  }

  // ---------------------------------------------------------------- the line ending

  const LINE_ENDINGS: seq<string> := ["\r\n", "\r", "\n", "\n\r"]

  /** A line that ends in a carriage return or a line feed. */
  predicate EndsWithLineBreak(s: string)
  {
    |s| > 0 && (s[|s| - 1] == '\r' || s[|s| - 1] == '\n')
  }

  /** The line as written: unchanged when it ends with a line break, else with '\n' appended. */
  function WithLineEnding(s: string): string
  {
    if EndsWithLineBreak(s) then s else s + "\n"
  }

  /** Ending with one of the four line endings is the same as ending with '\r' or '\n'. */
  lemma {:induction false} LineEndingsAreLineBreaks(s: string)
    ensures (exists j :: 0 <= j < |LINE_ENDINGS| && EndsWith(s, LINE_ENDINGS[j])) <==> EndsWithLineBreak(s)
  {
    if EndsWithLineBreak(s) {
      if s[|s| - 1] == '\r' {
        assert EndsWith(s, LINE_ENDINGS[1]);
      } else {
        assert EndsWith(s, LINE_ENDINGS[2]);
      }
    }
    forall j | 0 <= j < |LINE_ENDINGS| && EndsWith(s, LINE_ENDINGS[j])
      ensures EndsWithLineBreak(s)
    {
      var e := LINE_ENDINGS[j];
      assert s[|s| - |e|..] == e;
      assert s[|s| - 1] == e[|e| - 1];
    }
  }

  /** The loop over LINE_ENDINGS that decides whether to append '\n'. */
  method TerminateLine(logMessage: string) returns (r: string)
    ensures r == WithLineEnding(logMessage)
    ensures EndsWithLineBreak(r)
  {
    var addLineEnding := true;
    for j := 0 to |LINE_ENDINGS|
      invariant addLineEnding <==> forall i :: 0 <= i < j ==> !EndsWith(logMessage, LINE_ENDINGS[i])
    {
      if EndsWith(logMessage, LINE_ENDINGS[j]) {
        addLineEnding := false;
      }
    }
    LineEndingsAreLineBreaks(logMessage);
    r := logMessage;
    if addLineEnding {
      r := r + "\n";
    }
  }

  // ---------------------------------------------------------------- the handler

  const LINE_TEMPLATE: string := "[{0}] - {1} {2}"
  const FATAL_LINE_TEMPLATE: string := "[{0}] - {1} {2} ({3}:{4}, {5})"

  /** The TStringFormat call that builds the line, before its line ending. */
  function FormatLine(level: LogLevel, context: LogContext, coreLogMessage: string, logTime: string)
    : (r: Result<string, F.FormatError>)
    ensures r.Success? ==> '\0' !in r.value
  {
    if level == Fatal then
      F.Format(FATAL_LINE_TEMPLATE, [logTime, Prefix(level), coreLogMessage,
                                      context.fileName, context.sourceFileLine, context.functionName])
    else
      F.Format(LINE_TEMPLATE, [logTime, Prefix(level), coreLogMessage])
  }

  /** globalLogHandler(level, context, str), with the verbose flag and currentTime() as inputs. */
  function HandleLog(level: LogLevel, context: LogContext, str: string, verbose: bool, currentTime: string)
    : (r: LogOutcome)
    ensures r == Dropped <==> level == Debug && !verbose
  {
    if level == Debug && !verbose then Dropped
    else
      match FormatLine(level, context, StripQuotes(str), ReplaceChar(currentTime, '-', ':'))
      case Failure(e) => FormatThrew(e)
      case Success(line) => Emitted(WithLineEnding(line), OutputStream(level), level != Fatal, level == Fatal)
  }

  /**
   * Every written line ends with a line break and differs from the formatted line at most by
   * the '\n' added; fatal records go to standard error only and abort, the others also go to
   * the log file.
   */
  lemma {:induction false} HandleLogShape(level: LogLevel, context: LogContext, str: string, verbose: bool, currentTime: string)
    ensures var o := HandleLog(level, context, str, verbose, currentTime);
      o.Emitted? ==>
        && EndsWithLineBreak(o.message)
        && '\0' !in o.message
        && o.stream == OutputStream(level)
        && o.toFile == (level != Fatal)
        && o.aborts == (level == Fatal)
  {
    var o := HandleLog(level, context, str, verbose, currentTime);
    if o.Emitted? {
      var line := FormatLine(level, context, StripQuotes(str), ReplaceChar(currentTime, '-', ':')).value;
      assert o.message == line || o.message == line + "\n";
    }
  }

  /** The handler itself: the switch on the level, the quote tests, the time stamp and the line-ending loop. */
  method GlobalLogHandler(level: LogLevel, context: LogContext, str: string, verbose: bool, currentTime: string)
    returns (outcome: LogOutcome)
    ensures outcome == HandleLog(level, context, str, verbose, currentTime)
  {
    if level == Debug && !verbose {
      return Dropped;
    }
    var coreLogMessage := str;
    if Position(FirstIndexOf(coreLogMessage, '"')) == 0 {
      coreLogMessage := coreLogMessage[1..];
    }
    if Position(LastIndexOf(coreLogMessage, '"')) == F.SizeT(|coreLogMessage| - 1) {
      coreLogMessage := F.SubstrPrefix(coreLogMessage, F.SizeT(|coreLogMessage| - 1));
    }
    assert coreLogMessage == StripQuotes(str);
    var logTime := ReplaceChar(currentTime, '-', ':');
    var formatted := FormatLine(level, context, coreLogMessage, logTime);
    match formatted
    case Failure(e) =>
      outcome := FormatThrew(e);
    case Success(logMessage) =>
      var line := TerminateLine(logMessage);
      outcome := Emitted(line, OutputStream(level), level != Fatal, level == Fatal);
  }
}
