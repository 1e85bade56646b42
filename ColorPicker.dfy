/**
 The cyclic colour picker of client/src/utils/colorPicker.ts: a module-level
 counter over a ten-entry palette.
 */
module ColorPicker {

  /** `COLORS`. */
  const Colors: seq<string> := [
    "#FF6B6B", "#6BCB77", "#4D96FF", "#FFD93D", "#845EC2",
    "#FF9671", "#0081CF", "#FFC75F", "#D65DB1", "#00C9A7"
  ]

  /** The colour handed out by the call that finds the counter at `n`. */
  function ColorAt(n: nat): string
  {
    Colors[n % |Colors|]
  }

  /** Every colour handed out is a palette entry. */
  lemma ColorAtInPalette(n: nat)
    ensures ColorAt(n) in Colors
  {
  }

  /** The very first call returns "#FF6B6B". */
  lemma FirstColor()
    ensures ColorAt(0) == "#FF6B6B"
  {
  }

  /** Calls ten apart return the same colour: assignment wraps around. */
  lemma ColorAtPeriodic(n: nat)
    ensures ColorAt(n + 10) == ColorAt(n)
  {
  }

  /** The ten palette entries are pairwise different. */
  lemma PaletteDistinct()
    ensures forall i, j :: 0 <= i < j < |Colors| ==> Colors[i] != Colors[j]
  {
  }

  /** Any ten consecutive calls return ten different colours. */
  lemma WindowDistinct(n: nat, i: nat, j: nat)
    requires n <= i < j < n + 10
    ensures ColorAt(i) != ColorAt(j)
  {
  }

  /** `colorIndex` and the `getUserColor()` that reads and bumps it. */
  class Picker {
    /** `colorIndex`: how many colours have been handed out. */
    var colorIndex: nat
    /** The colours handed out so far, in call order. */
    ghost var issued: seq<string>

    /** The n-th call (from 0) handed out `COLORS[n mod 10]`. */
    ghost predicate Valid()
      reads this
    {
      && |issued| == colorIndex
      && forall k :: 0 <= k < |issued| ==> issued[k] == ColorAt(k)
    }

    /** The counter at module load. */
    constructor ()
      ensures Valid() && colorIndex == 0 && issued == []
    {
      colorIndex := 0;
      issued := [];
    }

    /** `getUserColor()`: the palette entry at the counter, then one step on. */
    method GetUserColor() returns (color: string)
      requires Valid()
      modifies this
      ensures Valid()
      ensures color == ColorAt(old(colorIndex)) && color in Colors
      ensures colorIndex == old(colorIndex) + 1
      ensures issued == old(issued) + [color]
    {
      color := Colors[colorIndex % |Colors|];
      colorIndex := colorIndex + 1;
      issued := issued + [color];
    }
  }
}
