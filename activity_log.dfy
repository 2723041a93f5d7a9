/** The activity log line both legacy scripts append after each cycle:
    timestamp, movement figure, mode and upload response text, separated by
    semicolons and ended by a newline. */
module ActivityLog {
  import opened Common

  datatype LogFields = LogFields(timestamp: string, score: string, mode: string, response: string)

  /** The text of a mode flag as Python formats the integers 0 and 1. */
  function ModeText(mode: int): (t: string)
    requires mode == 0 || mode == 1
    ensures |t| == 1 && ';' !in t
    ensures t == "1" <==> mode == 1
  {
    if mode == 1 then "1" else "0"
  }

  /** The line for one cycle: it ends in a newline, and when no field holds
      a newline it holds no other, so every cycle adds exactly one line. */
  function LogEntry(f: LogFields): (line: string)
    ensures |line| > 0 && line[|line| - 1] == '\n'
    ensures '\n' !in f.timestamp && '\n' !in f.score && '\n' !in f.mode && '\n' !in f.response
      ==> '\n' !in line[..|line| - 1]
  {
    var body := f.timestamp + ";" + f.score + ";" + f.mode + ";" + f.response;
    assert (body + "\n")[..|body|] == body;
    body + "\n"
  }

  /** Reading a log line back: the first three semicolons end the first three
      fields, the rest up to the final newline is the response text. */
  function ParseLogEntry(line: string): Option<LogFields> {
    if |line| == 0 || line[|line| - 1] != '\n' then None
    else
      var p1 := Partition(line[..|line| - 1], ';');
      var p2 := Partition(p1.tail, ';');
      var p3 := Partition(p2.tail, ';');
      if p1.found && p2.found && p3.found
      then Some(LogFields(p1.head, p2.head, p3.head, p3.tail))
      else None
  }

  /** A log line gives back its fields, whatever the response text holds, as
      long as the first three fields hold no semicolon. */
  lemma LogEntryRoundTrip(f: LogFields)
    requires ';' !in f.timestamp && ';' !in f.score && ';' !in f.mode
    ensures ParseLogEntry(LogEntry(f)) == Some(f)
  {
    var line := LogEntry(f);
    var rest3 := f.response;
    var rest2 := f.mode + ";" + rest3;
    var rest1 := f.score + ";" + rest2;
    var body := f.timestamp + ";" + rest1;
    assert line == body + "\n";
    assert line[..|line| - 1] == body;
    PartitionUnique(f.timestamp, ';', rest1);
    PartitionUnique(f.score, ';', rest2);
    PartitionUnique(f.mode, ';', rest3);
  }
}
