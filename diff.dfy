/**
 * The Diff entry point of diff/diff.go: a switch on the algorithm that runs
 * lcs.go's LcsDiff as written, and panics for Myers (not wired up) and for
 * any other value.
 */
module Diff {
  import opened DiffResult
  import opened Lcs

  /**
   * Diff(oldSeq, newSeq, algorithm). The LCS branch calls lcs.go's LcsDiff
   * as written, so it panics where that code does (Lcs.SuffixScanPanics);
   * when it returns, the script is the one the corrected LcsDiff computes.
   */
  method Diff<T(==)>(oldSeq: seq<T>, newSeq: seq<T>, algorithm: int) returns (r: Outcome<seq<Entry<T>>>)
    ensures algorithm == LCS ==> r == LcsDiffAsWritten(oldSeq, newSeq)
    ensures algorithm == LCS && r.Ok? ==> r.value == LcsDiffSpec(oldSeq, newSeq)
    ensures algorithm == MYERS ==> r == Panic("unimplemented")
    ensures algorithm != LCS && algorithm != MYERS ==> r == Panic("unknown")
    ensures r.Ok? ==> OldSide(r.value) == oldSeq && NewSide(r.value) == newSeq && Numbered(r.value, 0, 0)
  {
    if algorithm == LCS {
      r := LcsDiffAsWritten(oldSeq, newSeq);
      if r.Ok? {
        AsWrittenAgrees(oldSeq, newSeq);
        LcsDiffRebuilds(oldSeq, newSeq);
        LcsDiffNumbered(oldSeq, newSeq);
      }
      return r;
    } else if algorithm == MYERS {
      return Panic("unimplemented");
    }
    return Panic("unknown");
  }
}
