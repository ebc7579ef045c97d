/** The star-rating input: hovering a label colours it and every label after it. */
module StarRating {

  /** A label's inline colour: gold, dimmed, or none (the style sheet decides). */
  datatype StarColor = Gold | Dim | Unset

  /** Colours of `count` labels while the pointer is over label `idx`. */
  function HoverColors(count: nat, idx: nat): (colors: seq<StarColor>)
    ensures |colors| == count
    ensures forall i :: 0 <= i < count ==> (colors[i] == Gold <==> idx <= i)
    ensures forall i :: 0 <= i < count ==> colors[i] != Unset
  {
    if count == 0 then [] else HoverColors(count - 1, idx) + [if idx <= count - 1 then Gold else Dim]
  }

  /** Colours of `count` labels once the pointer leaves any of them. */
  function LeaveColors(count: nat): (colors: seq<StarColor>)
    ensures |colors| == count
    ensures forall i :: 0 <= i < count ==> colors[i] == Unset
  {
    if count == 0 then [] else LeaveColors(count - 1) + [Unset]
  }

  /** Number of gold labels. */
  function CountGold(colors: seq<StarColor>): nat {
    if colors == [] then 0
    else CountGold(colors[..|colors| - 1]) + (if colors[|colors| - 1] == Gold then 1 else 0)
  }

  /** Hovering label `idx` of `count` lights exactly `count - idx` labels. */
  lemma {:induction false} HoverGoldCount(count: nat, idx: nat)
    requires idx < count
    ensures CountGold(HoverColors(count, idx)) == count - idx
  {
    var colors := HoverColors(count, idx);
    assert colors[..count - 1] == HoverColors(count - 1, idx);
    if idx < count - 1 {
      HoverGoldCount(count - 1, idx);
    } else {
      NoGoldBefore(count - 1, idx);
    }
  }

  /** Before the hovered label nothing is gold. */
  lemma {:induction false} NoGoldBefore(count: nat, idx: nat)
    requires count <= idx
    ensures CountGold(HoverColors(count, idx)) == 0
  {
    if count > 0 {
      assert HoverColors(count, idx)[..count - 1] == HoverColors(count - 1, idx);
      NoGoldBefore(count - 1, idx);
    }
  }

  /** The gold labels form one run that starts at the hovered label and reaches
      the last label. */
  lemma HoverIsDimThenGold(count: nat, idx: nat)
    requires idx <= count
    ensures HoverColors(count, idx) == seq(idx, _ => Dim) + seq(count - idx, _ => Gold)
  {
    var colors := HoverColors(count, idx);
    var expected := seq(idx, _ => Dim) + seq(count - idx, _ => Gold);
    assert |colors| == |expected|;
    forall i | 0 <= i < count
      ensures colors[i] == expected[i]
    {
      if i < idx {
        assert expected[i] == Dim;
      } else {
        assert expected[i] == Gold;
      }
    }
  }
}
