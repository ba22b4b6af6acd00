/** The bounded `performance_log`: appended once per page load, kept to its last 50 entries. */
module PerfLog {

  /** Times in milliseconds; the three durations are the navigation-timing differences. */
  datatype Entry = Entry(timestamp: int, page: string, loadTime: real, domContentLoaded: real, totalTime: real)

  const MaxEntries: nat := 50

  /** `perfLog.splice(0, perfLog.length - 50)` when longer than 50. */
  function KeepLast(log: seq<Entry>): (r: seq<Entry>)
    ensures |r| == if |log| > MaxEntries then MaxEntries else |log|
    ensures r == log[|log| - |r|..]
  {
    if |log| > MaxEntries then log[|log| - MaxEntries..] else log
  }

  /** The log after recording `e`: bounded, ending in `e`, and a suffix of the old log followed by `e`. */
  lemma AppendBounded(log: seq<Entry>, e: Entry)
    ensures var r := KeepLast(log + [e]);
      |r| <= MaxEntries && r[|r| - 1] == e && r[..|r| - 1] == log[|log| - (|r| - 1)..]
  {
  }

  /** A log of at most 49 entries loses nothing when one is appended. */
  lemma AppendShort(log: seq<Entry>, e: Entry)
    requires |log| < MaxEntries
    ensures KeepLast(log + [e]) == log + [e]
  {
  }
}
