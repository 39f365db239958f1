/** The map legend: one swatch and one depth-range caption per threshold,
    built by a loop that appends entry after entry. */
module Legend {
  import opened Markers

  datatype Option<T> = None | Some(value: T)

  /** The depths the legend lists, one entry each. */
  const Depths: seq<nat> := [5, 20, 40, 50, 60, 70]

  /** A legend caption: a closed range "lo–hi", or the open-ended last range "lo+". */
  datatype Label = Range(lo: nat, hi: nat) | OpenEnded(lo: nat)

  /** One legend line: the swatch colour and the caption beside it. */
  datatype Entry = Entry(swatch: string, caption: Label)

  /** Array indexing as the script does it: past either end it reads `undefined`. */
  function At(s: seq<nat>, i: int): (v: Option<nat>)
    ensures v.Some? <==> 0 <= i < |s|
    ensures v.Some? ==> v.value == s[i]
  {
    if 0 <= i < |s| then Some(s[i]) else None
  }

  /** Truthiness of a number read from the array: `undefined` and 0 are falsy. */
  predicate Truthy(v: Option<nat>): (b: bool)
    ensures v.None? ==> !b
    ensures v.Some? ==> (b <==> v.value != 0)
  {
    v.Some? && v.value != 0
  }

  /** What an entry list built from `depths` looks like: one entry per depth,
      in order, each with the colour of the depth just above its threshold,
      and a closed range up to the next threshold except for the last. */
  predicate IsLegendOf(depths: seq<nat>, entries: seq<Entry>)
  {
    |entries| == |depths| &&
    forall i {:trigger entries[i]} :: 0 <= i < |entries| ==>
      entries[i].swatch == SelectColor((depths[i] + 1) as real) &&
      entries[i].caption == if i + 1 < |depths| then Range(depths[i], depths[i + 1]) else OpenEnded(depths[i])
  }

  /** The range test of the loop is the truthiness of depths[i+1]; when no depth
      is 0 that is exactly the test that i+1 is a valid index. */
  lemma TruthyIsInRange(depths: seq<nat>, j: int)
    requires forall k :: 0 <= k < |depths| ==> depths[k] != 0
    ensures Truthy(At(depths, j)) <==> 0 <= j < |depths|
  {
  }

  /** legend.onAdd: walk the depths, appending one entry per depth. */
  method OnAdd() returns (entries: seq<Entry>)
    ensures IsLegendOf(Depths, entries)
  {
    var depths := Depths;
    entries := [];
    for i := 0 to |depths|
      invariant |entries| == i
      invariant forall j :: 0 <= j < i ==>
        entries[j].swatch == SelectColor((depths[j] + 1) as real) &&
        entries[j].caption == if j + 1 < |depths| then Range(depths[j], depths[j + 1]) else OpenEnded(depths[j])
    {
      var next := At(depths, i + 1);
      TruthyIsInRange(depths, i + 1);
      var caption := if Truthy(next) then Range(depths[i], next.value) else OpenEnded(depths[i]);
      entries := entries + [Entry(SelectColor((depths[i] + 1) as real), caption)];
    }
  }

  /** The swatch picked for threshold T, selectColor(T + 1), is the colour of the
      bucket that starts at T, which is also selectColor(T) itself. */
  lemma SwatchOfThreshold(k: nat)
    requires k < |Depths|
    ensures SelectColor((Depths[k] + 1) as real) == SelectColor(Depths[k] as real) == Palette[k + 1]
  {
    assert Depths[k] as real == Thresholds[k];
    ThresholdGoesUp(k);
    SelectColorIsBucket((Depths[k] + 1) as real, k + 1);
  }

  /** The legend has six entries with the colours of buckets 1 to 6 in order
      and the labels 5–20, 20–40, 40–50, 50–60, 60–70 and 70+. */
  lemma LegendEntries(entries: seq<Entry>)
    requires IsLegendOf(Depths, entries)
    ensures |entries| == 6
    ensures forall i :: 0 <= i < |entries| ==> entries[i].swatch == Palette[i + 1]
    ensures entries[0].caption == Range(5, 20) && entries[1].caption == Range(20, 40)
    ensures entries[2].caption == Range(40, 50) && entries[3].caption == Range(50, 60)
    ensures entries[4].caption == Range(60, 70) && entries[5].caption == OpenEnded(70)
  {
    // Each swatch is an instance of SwatchOfThreshold; each caption an instance of IsLegendOf.
  }

  /** The six swatches are pairwise distinct, and the colour of the shallowest
      bucket (below 5 km) never appears in the legend. */
  lemma LegendSwatchesDistinct(entries: seq<Entry>)
    requires IsLegendOf(Depths, entries)
    ensures forall i, j :: 0 <= i < |entries| && 0 <= j < |entries| && i != j ==> entries[i].swatch != entries[j].swatch
    ensures forall i :: 0 <= i < |entries| ==> entries[i].swatch != Palette[0]
  {
    LegendEntries(entries);
    PaletteDistinct();
  }

  /** The decimal digit d as a character. */
  function DigitChar(d: nat): (c: char)
    requires d < 10
    ensures '0' <= c <= '9' && (c as int) - ('0' as int) == d
  {
    (('0' as int) + d) as char
  }

  predicate AllDigits(s: string)
  {
    forall i :: 0 <= i < |s| ==> '0' <= s[i] <= '9'
  }

  /** The decimal text of a non-negative integer, as string concatenation renders it. */
  function Show(n: nat): (s: string)
    ensures |s| >= 1 && AllDigits(s)
    ensures n >= 10 ==> s[0] != '0'
    decreases n
  {
    if n < 10 then [DigitChar(n)] else Show(n / 10) + [DigitChar(n % 10)]
  }

  /** Reads a string of decimal digits back as a number. */
  function ReadDecimal(s: string): nat
    requires AllDigits(s)
  {
    if s == [] then 0
    else ReadDecimal(s[..|s| - 1]) * 10 + ((s[|s| - 1] as int) - ('0' as int))
  }

  /** The decimal text names the number it was made from. */
  lemma {:induction false} ReadShow(n: nat)
    ensures ReadDecimal(Show(n)) == n
    decreases n
  {
    if n >= 10 {
      ReadShow(n / 10);
      var s := Show(n);
      assert s[..|s| - 1] == Show(n / 10);
    }
  }

  /** The text of a caption, without markup (the en dash entity is shown as '–'):
      a closed range reads "lo–hi" and the last range "lo+", both numbers in decimal. */
  function LabelText(caption: Label): (text: string)
    ensures caption.Range? ==>
      |text| == |Show(caption.lo)| + 1 + |Show(caption.hi)| &&
      text[..|Show(caption.lo)|] == Show(caption.lo) &&
      text[|Show(caption.lo)|] == '–' &&
      text[|Show(caption.lo)| + 1..] == Show(caption.hi)
    ensures caption.OpenEnded? ==>
      |text| == |Show(caption.lo)| + 1 &&
      text[..|text| - 1] == Show(caption.lo) &&
      text[|text| - 1] == '+'
  {
    match caption
    case Range(lo, hi) => Show(lo) + "–" + Show(hi)
    case OpenEnded(lo) => Show(lo) + "+"
  }

  /** Different numbers have different decimal texts. */
  lemma ShowInjective(m: nat, n: nat)
    requires Show(m) == Show(n)
    ensures m == n
  {
    ReadShow(m);
    ReadShow(n);
  }

  /** Different captions read differently: the text determines the caption. */
  lemma LabelTextInjective(a: Label, b: Label)
    requires LabelText(a) == LabelText(b)
    ensures a == b
  {
    var t, sa, sb := LabelText(a), Show(a.lo), Show(b.lo);
    // The first number ends where the first non-digit stands, so both start with the same number.
    if |sa| < |sb| {
      assert false;
    } else if |sb| < |sa| {
      assert false;
    }
    assert sa == t[..|sa|] == sb;
    ShowInjective(a.lo, b.lo);
    if a.Range? && b.Range? {
      assert Show(a.hi) == t[|sa| + 1..] == Show(b.hi);
      ShowInjective(a.hi, b.hi);
    }
  }

  /** The labels read 5–20, 20–40, 40–50, 50–60, 60–70 and 70+. */
  lemma LegendLabelTexts(entries: seq<Entry>)
    requires IsLegendOf(Depths, entries)
    ensures |entries| == 6
    ensures LabelText(entries[0].caption) == "5–20" && LabelText(entries[1].caption) == "20–40"
    ensures LabelText(entries[2].caption) == "40–50" && LabelText(entries[3].caption) == "50–60"
    ensures LabelText(entries[4].caption) == "60–70" && LabelText(entries[5].caption) == "70+"
  {
    LegendEntries(entries);
    CaptionTexts();
  }

  lemma CaptionTexts()
    ensures LabelText(Range(5, 20)) == "5–20" && LabelText(Range(20, 40)) == "20–40"
    ensures LabelText(Range(40, 50)) == "40–50" && LabelText(Range(50, 60)) == "50–60"
    ensures LabelText(Range(60, 70)) == "60–70" && LabelText(OpenEnded(70)) == "70+"
  {
    ShowThresholds();
  }

  lemma ShowThresholds()
    ensures Show(5) == "5" && Show(20) == "20" && Show(40) == "40"
    ensures Show(50) == "50" && Show(60) == "60" && Show(70) == "70"
  {
  }
}
