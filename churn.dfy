/**
 * Line-churn records: `FileHotspot` (per file) and `CodeChurnByDay` (per day).
 * Their derived properties `NetChange` and `TotalChurn` are C# `int`
 * expressions, evaluated in the default unchecked context, so a result outside
 * the 32-bit range wraps around; `Wrap32` writes that out.
 */
module Churn {

  const MinInt32: int := -0x8000_0000
  const MaxInt32: int := 0x7FFF_FFFF

  predicate IsInt32(x: int) {
    MinInt32 <= x <= MaxInt32
  }

  /** Two's-complement wrap-around of an exact integer result into 32 bits. */
  function Wrap32(x: int): (r: int)
    ensures IsInt32(r)
    ensures (r - x) % 0x1_0000_0000 == 0
    ensures IsInt32(x) ==> r == x
  {
    (x - MinInt32) % 0x1_0000_0000 + MinInt32
  }

  /** Activity of one file: the commits that touched it and their line counts. */
  datatype FileHotspot = FileHotspot(filePath: string, commitCount: int, linesAdded: int, linesDeleted: int)
  {
    /** Lines added minus lines deleted. */
    function NetChange(): int {
      Wrap32(linesAdded - linesDeleted)
    }

    /** Lines added plus lines deleted. */
    function TotalChurn(): int {
      Wrap32(linesAdded + linesDeleted)
    }
  }

  /** Line counts of one day. */
  datatype CodeChurnByDay = CodeChurnByDay(day: int, linesAdded: int, linesDeleted: int, commitCount: int)
  {
    /** Lines added minus lines deleted. */
    function NetChange(): int {
      Wrap32(linesAdded - linesDeleted)
    }

    /** Lines added plus lines deleted. */
    function TotalChurn(): int {
      Wrap32(linesAdded + linesDeleted)
    }
  }

  /** Line counts a diff can report: non-negative 32-bit values. */
  predicate LineCounts(added: int, deleted: int) {
    0 <= added <= MaxInt32 && 0 <= deleted <= MaxInt32
  }

  /**
   * For line counts whose sum fits in 32 bits, the derived values are the exact
   * difference and sum: churn exceeds the net change by twice the deletions,
   * their sum is twice the additions, and churn bounds the size of the net change.
   */
  lemma HotspotChurn(h: FileHotspot)
    requires LineCounts(h.linesAdded, h.linesDeleted)
    requires h.linesAdded + h.linesDeleted <= MaxInt32
    ensures h.NetChange() == h.linesAdded - h.linesDeleted
    ensures h.TotalChurn() == h.linesAdded + h.linesDeleted
    ensures h.TotalChurn() - h.NetChange() == 2 * h.linesDeleted
    ensures h.TotalChurn() + h.NetChange() == 2 * h.linesAdded
    ensures h.TotalChurn() >= 0
    ensures h.TotalChurn() >= h.NetChange() && h.TotalChurn() >= -h.NetChange()
  {
  }

  /** The net change of non-negative 32-bit counts never wraps. */
  lemma HotspotNetChangeExact(h: FileHotspot)
    requires LineCounts(h.linesAdded, h.linesDeleted)
    ensures h.NetChange() == h.linesAdded - h.linesDeleted
  {
  }

  /** Churn wraps to a negative value once the sum leaves the 32-bit range. */
  lemma HotspotChurnWraps()
    ensures FileHotspot("big.bin", 1, MaxInt32, 1).TotalChurn() == MinInt32
  {
  }

  /** The derived values read only the two line counts; path and commit count do not matter. */
  lemma HotspotChurnOfLinesOnly(h: FileHotspot, g: FileHotspot)
    requires h.linesAdded == g.linesAdded && h.linesDeleted == g.linesDeleted
    ensures h.NetChange() == g.NetChange() && h.TotalChurn() == g.TotalChurn()
  {
  }

  /** The daily record obeys the same identities and bounds as `HotspotChurn`. */
  lemma DayChurn(c: CodeChurnByDay)
    requires LineCounts(c.linesAdded, c.linesDeleted)
    requires c.linesAdded + c.linesDeleted <= MaxInt32
    ensures c.NetChange() == c.linesAdded - c.linesDeleted
    ensures c.TotalChurn() == c.linesAdded + c.linesDeleted
    ensures c.TotalChurn() - c.NetChange() == 2 * c.linesDeleted
    ensures c.TotalChurn() >= 0
    ensures c.TotalChurn() >= c.NetChange() && c.TotalChurn() >= -c.NetChange()
  {
  }

  /** The day and commit count are stored fields; the derived values read neither. */
  lemma DayChurnOfLinesOnly(c: CodeChurnByDay, d: CodeChurnByDay)
    requires c.linesAdded == d.linesAdded && c.linesDeleted == d.linesDeleted
    ensures c.NetChange() == d.NetChange() && c.TotalChurn() == d.TotalChurn()
  {
  }
}
