/** The actuator side of the connector: the variant flags read from the frame
    name, the scaling of servo pulse widths to the 0..1 channel values
    FlightAxis expects, the `rev4` block swap and the helicopter swashplate
    demix. Arithmetic is over `real`; single-precision rounding is not
    modelled. */
module Mixer {
  import opened CStrings

  /** Number of channels sent in every exchange. */
  const Channels: nat := 8
  /** Channels 0-3 and 4-7 trade places under `rev4`. */
  const Half: nat := 4

  const HeliTag: seq<char> := "heli"
  const Rev4Tag: seq<char> := "rev4"

  /** The two switches the constructor sets from the frame name. */
  datatype Variant = Variant(heliDemix: bool, rev4Servos: bool)

  /** The frame name contains `tag` somewhere. */
  ghost predicate Mentions(frame: seq<char>, tag: seq<char>)
  {
    exists i: nat :: OccursAt(frame, tag, i)
  }

  /** Lines 48-49: each switch is on exactly when its tag occurs in the frame
      name. */
  function VariantOf(frame: seq<char>): (r: Variant)
    ensures r.heliDemix <==> Mentions(frame, HeliTag)
    ensures r.rev4Servos <==> Mentions(frame, Rev4Tag)
  {
    var r := Variant(Contains(frame, HeliTag), Contains(frame, Rev4Tag));
    assert !NoOccurrence(frame, HeliTag, 0) <==> Mentions(frame, HeliTag);
    assert !NoOccurrence(frame, Rev4Tag, 0) <==> Mentions(frame, Rev4Tag);
    r
  }

  /** A tag embedded anywhere in the frame name switches its variant on. */
  lemma TagSwitchesOn(before: seq<char>, tag: seq<char>, after: seq<char>)
    requires tag == HeliTag || tag == Rev4Tag
    ensures tag == HeliTag ==> VariantOf(before + tag + after).heliDemix
    ensures tag == Rev4Tag ==> VariantOf(before + tag + after).rev4Servos
  {
    var frame := before + tag + after;
    assert frame[|before|..|before| + |tag|] == tag;
    assert OccursAt(frame, tag, |before|);
  }

  // ------------------------------------------------------------- scaling

  /** Line 169: a pulse width in microseconds to a channel value, 1000 us
      mapping to 0 and 2000 us to 1. */
  function Scale(s: int): (r: real)
    ensures 1000.0 * r + 1000.0 == s as real
    ensures 0.0 <= r <= 1.0 <==> 1000 <= s <= 2000
  {
    (s - 1000) as real / 1000.0
  }

  /** Scaling preserves the order of pulse widths. */
  lemma ScaleMonotone(a: int, b: int)
    ensures a <= b <==> Scale(a) <= Scale(b)
  {
  }

  /** Lines 167-170: every channel scaled on its own. */
  function ScaleAll(servos: seq<int>): (r: seq<real>)
    ensures |r| == |servos|
    ensures forall i :: 0 <= i < |servos| ==> 1000.0 * r[i] + 1000.0 == servos[i] as real
  {
    if |servos| == 0 then [] else [Scale(servos[0])] + ScaleAll(servos[1..])
  }

  // ---------------------------------------------------------------- rev4

  /** Lines 172-178: channels 0-3 and 4-7 swap places as blocks. */
  function Rev4(v: seq<real>): (r: seq<real>)
    requires |v| == Channels
    ensures |r| == Channels
    ensures forall i :: 0 <= i < Half ==> r[i] == v[i + Half] && r[i + Half] == v[i]
  {
    v[Half..] + v[..Half]
  }

  /** Swapping twice restores the original order. */
  lemma Rev4Involution(v: seq<real>)
    requires |v| == Channels
    ensures Rev4(Rev4(v)) == v
  {
    var w := Rev4(Rev4(v));
    forall i | 0 <= i < Channels
      ensures w[i] == v[i]
    {
      if i >= Half {
        assert w[(i - Half) + Half] == Rev4(v)[i - Half];
      }
    }
  }

  // ------------------------------------------------------------- heli demix

  /** `constrain_float`: `x` limited to `[lo, hi]`. */
  function Clamp(x: real, lo: real, hi: real): (r: real)
    requires lo <= hi
    ensures lo <= r <= hi
    ensures r == x <==> lo <= x <= hi
    ensures x < lo ==> r == lo
    ensures x > hi ==> r == hi
  {
    if x < lo then lo else if x > hi then hi else x
  }

  /** Line 186: roll is the difference of the two lateral swash servos. */
  function RollRate(swash1: real, swash2: real): real
  {
    swash1 - swash2
  }

  /** Line 187: pitch is the rear servo against the mean of the front two. */
  function PitchRate(swash1: real, swash2: real, swash3: real): real
  {
    -((swash1 + swash2) / 2.0 - swash3)
  }

  /** Lines 180-191: channels 0 and 1 become roll and pitch, centred on 0.5
      and limited to [0, 1]; channels 2-7 pass through. */
  function HeliDemix(v: seq<real>): (r: seq<real>)
    requires |v| == Channels
    ensures |r| == Channels
    ensures r[2..] == v[2..]
    ensures 0.0 <= r[0] <= 1.0 && 0.0 <= r[1] <= 1.0
    ensures r[0] == Clamp(RollRate(v[0], v[1]) + 0.5, 0.0, 1.0)
    ensures r[1] == Clamp(PitchRate(v[0], v[1], v[2]) + 0.5, 0.0, 1.0)
  {
    var roll := Clamp(RollRate(v[0], v[1]) + 0.5, 0.0, 1.0);
    var pitch := Clamp(PitchRate(v[0], v[1], v[2]) + 0.5, 0.0, 1.0);
    [roll, pitch] + v[2..]
  }

  /** A level swashplate (all three servos at the same position) commands
      neutral roll and pitch. */
  lemma LevelSwashIsNeutral(v: seq<real>)
    requires |v| == Channels && v[0] == v[1] == v[2]
    ensures HeliDemix(v)[0] == 0.5 && HeliDemix(v)[1] == 0.5
  {
  }

  /** The servo positions that a roll, a pitch and a collective servo
      position came from, inverting lines 186-187. */
  function Swash(roll: real, pitch: real, swash3: real): (real, real)
  {
    var sum := 2.0 * (swash3 - pitch);
    ((sum + roll) / 2.0, (sum - roll) / 2.0)
  }

  /** When neither output is clamped, the demix loses nothing: channels 0
      and 1 of the input are recovered from the outputs and channel 2. */
  lemma DemixInvertible(v: seq<real>)
    requires |v| == Channels
    requires 0.0 <= RollRate(v[0], v[1]) + 0.5 <= 1.0
    requires 0.0 <= PitchRate(v[0], v[1], v[2]) + 0.5 <= 1.0
    ensures Swash(HeliDemix(v)[0] - 0.5, HeliDemix(v)[1] - 0.5, HeliDemix(v)[2]) == (v[0], v[1])
  {
  }

  // ---------------------------------------------------------------- mixer

  /** The input channel that feeds output channel `i`. */
  function Source(variant: Variant, i: nat): (r: nat)
    requires i < Channels
    ensures r < Channels
  {
    if !variant.rev4Servos then i else if i < Half then i + Half else i - Half
  }

  /** Lines 167-191: scale, then swap blocks under `rev4`, then demix under
      `heli`. */
  function Mix(variant: Variant, servos: seq<int>): (r: seq<real>)
    requires |servos| == Channels
    ensures |r| == Channels
    ensures forall i :: 0 <= i < Channels && (i >= 2 || !variant.heliDemix) ==>
              r[i] == Swashed(variant, servos, i)
    ensures variant.heliDemix ==>
              && r[0] == Clamp(RollRate(Swashed(variant, servos, 0), Swashed(variant, servos, 1)) + 0.5, 0.0, 1.0)
              && r[1] == Clamp(PitchRate(Swashed(variant, servos, 0), Swashed(variant, servos, 1),
                                         Swashed(variant, servos, 2)) + 0.5, 0.0, 1.0)
              && 0.0 <= r[0] <= 1.0 && 0.0 <= r[1] <= 1.0
  {
    var scaled := ScaleAll(servos);
    var swapped := if variant.rev4Servos then Rev4(scaled) else scaled;
    assert forall i :: 0 <= i < Channels ==> swapped[i] == Swashed(variant, servos, i) by {
      forall i | 0 <= i < Channels
        ensures swapped[i] == Swashed(variant, servos, i)
      {
        assert scaled[Source(variant, i)] == Scale(servos[Source(variant, i)]);
      }
    }
    if variant.heliDemix then
      var r := HeliDemix(swapped);
      assert forall i :: 2 <= i < Channels ==> r[i] == r[2..][i - 2] == swapped[i];
      r
    else swapped
  }

  /** The scaled pulse of the servo that feeds output channel `i`. */
  function Swashed(variant: Variant, servos: seq<int>, i: nat): real
    requires |servos| == Channels && i < Channels
  {
    Scale(servos[Source(variant, i)])
  }

  /** Pulse widths within 1000-2000 us produce channel values within
      [0, 1] under every variant. */
  lemma MixInUnitRange(variant: Variant, servos: seq<int>)
    requires |servos| == Channels
    requires forall i :: 0 <= i < Channels ==> 1000 <= servos[i] <= 2000
    ensures forall i :: 0 <= i < Channels ==> 0.0 <= Mix(variant, servos)[i] <= 1.0
  {
    var r := Mix(variant, servos);
    forall i | 0 <= i < Channels
      ensures 0.0 <= r[i] <= 1.0
    {
      if i >= 2 || !variant.heliDemix {
        var s := servos[Source(variant, i)];
        assert r[i] == Scale(s) && 1000 <= s <= 2000;
      }
    }
  }

  /** Under `rev4` without `heli`, swapping the output again gives back the
      plainly scaled channels. */
  lemma Rev4MixUndone(servos: seq<int>)
    requires |servos| == Channels
    ensures Rev4(Mix(Variant(false, true), servos)) == ScaleAll(servos)
  {
    Rev4Involution(ScaleAll(servos));
  }
}
