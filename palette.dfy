/** Colour of the line drawn for the asset at a given position of the asset
    list: a fixed 20-colour palette, then a golden-angle hue rotation. */
module Palette {

  const Colors: seq<nat> := [
    0xe6194b, 0x3cb44b, 0xffe119, 0x4363d8, 0xf58231,
    0x911eb4, 0x46f0f0, 0xf032e6, 0xbcf60c, 0xfabebe,
    0x008080, 0xe6beff, 0x9a6324, 0xfffac8, 0x800000,
    0xaaffc3, 0x808000, 0xffd8b1, 0x000075, 0x808080
  ]

  /** A palette entry as its 24-bit RGB value (`#e6194b` is 0xe6194b), or
      an HSL colour whose hue is kept in half degrees so
      that the golden angle 137.5 degrees is the whole number 275. */
  datatype Color = Rgb(code: nat) | Hsl(hueHalfDegrees: nat, saturation: nat, lightness: nat)

  function GetColor(index: nat): (c: Color)
    ensures c.Rgb? <==> index < |Colors|
    ensures c.Rgb? ==> c.code == Colors[index]
    ensures c.Hsl? ==> c.hueHalfDegrees < 720 && c.saturation == 70 && c.lightness == 55
  {
    if index < |Colors| then Rgb(Colors[index])
    else Hsl((index * 275) % 720, 70, 55)  // 137.5 and 360 degrees in half degrees
  }

  /** The twenty palette entries are pairwise different. */
  lemma ColorsDistinct()
    ensures |Colors| == 20
    ensures forall i, j :: 0 <= i < j < |Colors| ==> Colors[i] != Colors[j]
  {
  }

  /** Different positions inside the palette get different colours. */
  lemma GetColorInjectiveOnPalette(i: nat, j: nat)
    requires i < j < |Colors|
    ensures GetColor(i) != GetColor(j)
  {
    ColorsDistinct();
  }

  /** The integer hue is the host's floating-point `(index * 137.5) % 360`:
      the angle minus a whole number of full turns, left in [0, 360). */
  lemma HueIsGoldenAngleModTurn(index: nat)
    requires index >= |Colors|
    ensures var h := GetColor(index).hueHalfDegrees as real / 2.0;
      && 0.0 <= h < 360.0
      && (index as real) * 137.5 == 360.0 * (((index * 275) / 720) as real) + h
  {
    var q, h := (index * 275) / 720, (index * 275) % 720;
    assert index * 275 == 720 * q + h;
    assert ((index * 275) as real) == (720 * q + h) as real;
    assert (index as real) * 275.0 == 720.0 * (q as real) + (h as real);
  }

  /** `x % 720` from any decomposition of `x` into whole turns and a rest. */
  lemma TurnRest(x: int, q: int, r: int)
    requires x == 720 * q + r && 0 <= r < 720
    ensures x % 720 == r
  {
  }

  /** Two angles whose difference is not a whole number of turns leave
      different rests. */
  lemma DifferentRest(x: int, y: int)
    ensures (x - y) % 720 != 0 ==> x % 720 != y % 720
  {
    if x % 720 == y % 720 {
      TurnRest(x - y, x / 720 - y / 720, 0);
    }
  }

  /** Ordinals 144 apart share a hue: the hue rotation repeats with period
      144, because 144 * 137.5 = 55 * 360. */
  lemma HuePeriod(index: nat)
    requires index >= |Colors|
    ensures GetColor(index + 144) == GetColor(index)
  {
    var x := index * 275;
    var q, r := x / 720, x % 720;
    assert (index + 144) * 275 == 720 * (q + 55) + r;
    TurnRest((index + 144) * 275, q + 55, r);
  }

  /** A step of fewer than 144 ordinals never turns the hue by a whole number
      of turns. Since 55 * 55 = 21 * 144 + 1, a step `d` with
      `275 * d = 720 * q + r` satisfies `d = 144 * (55 * q - 21 * d) + 11 * r`. */
  lemma {:induction false} StepTurns(d: int)
    requires 0 < d < 144
    ensures (275 * d) % 720 != 0
  {
    var q, r := (275 * d) / 720, (275 * d) % 720;
    assert 275 * d == 720 * q + r;
    var r5 := r / 5;
    assert r == 5 * r5;
    assert 55 * d == 144 * q + r5;
    assert d == 144 * (55 * q - 21 * d) + 55 * r5;
    assert r5 != 0;
  }

  /** Within one period no hue repeats: beyond the palette, any 144
      consecutive ordinals get pairwise different colours. */
  lemma {:induction false} HueDistinctWithinPeriod(i: nat, j: nat)
    requires |Colors| <= i < j < i + 144
    ensures GetColor(i) != GetColor(j)
  {
    StepTurns(j - i);
    assert j * 275 - i * 275 == 275 * (j - i);
    DifferentRest(j * 275, i * 275);
  }
}
