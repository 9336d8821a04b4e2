/**
 Definitions shared by both Game of Life engines: the unsigned 16-bit
 integer of the flat-grid engine, the truncating cast into it, an optional
 value, and Conway's rule stated once in the words of the documentation.
 */
module Life {

  /** An unsigned 16-bit integer (`u16`). */
  type U16 = x: int | 0 <= x < 0x1_0000

  /** `v as u16` for a signed operand: keeps the low 16 bits, so -1 becomes 65535. */
  function Wrap16(v: int): (r: U16)
    ensures 0 <= v < 0x1_0000 ==> r == v
    ensures v == -1 ==> r == 0xFFFF
    ensures 0x1_0000 <= v < 0x2_0000 ==> r == v - 0x1_0000
    ensures (r - v) % 0x1_0000 == 0
  {
    v % 0x1_0000
  }

  datatype Option<+T> = None | Some(value: T)

  /**
   Conway's rule as documented: a live cell with 2 or 3 live neighbours
   survives, a dead cell with exactly 3 live neighbours becomes alive, and
   every other cell dies or stays dead.
   */
  predicate ConwayRule(alive: bool, liveNeighbors: int)
  {
    if alive then liveNeighbors == 2 || liveNeighbors == 3 else liveNeighbors == 3
  }

  /** 1 for a live cell, 0 for a dead one. */
  function Indicator(live: bool): nat
  {
    if live then 1 else 0
  }

  /** The number of `true` entries of `s`. */
  function CountTrue(s: seq<bool>): (n: nat)
    ensures n <= |s|
  {
    if |s| == 0 then 0 else Indicator(s[0]) + CountTrue(s[1..])
  }

  /** The count of eight flags written out as a sum. */
  lemma CountTrueEight(s: seq<bool>)
    requires |s| == 8
    ensures CountTrue(s) == Indicator(s[0]) + Indicator(s[1]) + Indicator(s[2]) + Indicator(s[3])
      + Indicator(s[4]) + Indicator(s[5]) + Indicator(s[6]) + Indicator(s[7])
  {
    assert s[0..] == s;
    CountTrueFrom(s, 0);
    CountTrueFrom(s, 1);
    CountTrueFrom(s, 2);
    CountTrueFrom(s, 3);
    CountTrueFrom(s, 4);
    CountTrueFrom(s, 5);
    CountTrueFrom(s, 6);
    CountTrueFrom(s, 7);
    assert s[8..] == [];
  }

  lemma CountTrueFrom(s: seq<bool>, k: nat)
    requires k < |s|
    ensures CountTrue(s[k..]) == Indicator(s[k]) + CountTrue(s[k + 1..])
  {
    assert s[k..][1..] == s[k + 1..];
  }

  /** No flag set, nothing counted. */
  lemma {:induction false} CountTrueNone(s: seq<bool>)
    requires forall i | 0 <= i < |s| :: !s[i]
    ensures CountTrue(s) == 0
  {
    if |s| > 0 {
      assert forall i | 0 <= i < |s[1..]| :: s[1..][i] == s[i + 1];
      CountTrueNone(s[1..]);
    }
  }
}
