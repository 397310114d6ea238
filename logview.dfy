/**
 * The log viewer (`view_logs`): the last entries of the open log, each with
 * its surrounding whitespace (and so its line break) stripped. The log file is
 * its sequence of lines; a log file that does not exist yet reads as empty.
 */
module LogView {
  import opened PyText

  /** How many lines the viewer returns at most. */
  const MaxEntries: nat := 100

  function Min(a: int, b: int): int {
    if a <= b then a else b
  }

  /** Python's `s[start:]`, a negative `start` counting from the end and clamped to the sequence. */
  function SliceFrom<T>(s: seq<T>, start: int): (r: seq<T>)
    ensures start < 0 ==> |r| == Min(-start, |s|) && r == s[|s| - |r|..]
    ensures 0 <= start ==> |r| == |s| - Min(start, |s|) && r == s[|s| - |r|..]
  {
    var k := if start < 0 then (if |s| + start < 0 then 0 else |s| + start)
             else (if start > |s| then |s| else start);
    s[k..]
  }

  /** `[line.strip() for line in lines]`. */
  function StripEach(lines: seq<string>): (r: seq<string>)
    ensures |r| == |lines|
  {
    seq(|lines|, i requires 0 <= i < |lines| => Strip(lines[i]))
  }

  /**
   * What `/logs` returns: the last `MaxEntries` lines of the log in their
   * original order, each stripped; nothing for an empty or absent log.
   */
  function Tail(log: seq<string>): (r: seq<string>)
    ensures |r| == Min(MaxEntries, |log|)
    ensures forall i :: 0 <= i < |r| ==> r[i] == Strip(log[|log| - |r| + i])
    ensures r == [] <==> log == []
  {
    StripEach(SliceFrom(log, -(MaxEntries as int)))
  }

  /**
   * Appending a line to the log shows up in the next view as its stripped
   * text, last; the oldest shown line drops out once the view is full.
   */
  lemma TailAfterAppend(log: seq<string>, line: string)
    ensures Tail(log + [line]) ==
              (if |log| < MaxEntries then Tail(log) else Tail(log)[1..]) + [Strip(line)]
  {
  }
}
