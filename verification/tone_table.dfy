/** The colour-key table: twelve bands, each with a down-octave, a base and an
    up-octave tone in whole hertz (src/lightplayer.h:66-123). */
module ToneTable {

  /** The bands in declaration order, from infrared/red to ultraviolet/violet. */
  datatype Band =
    | InfraredRed | Red | RedOrange | Orange | Yellow | YellowGreen
    | Green | GreenBlue | Blue | BlueViolet | Violet | UltravioletViolet

  /** The three buttons of a band: `d1`, `0` and `u1` in the source's names. */
  datatype Octave = Down | Base | Up

  /** One of the 36 tone buttons. */
  datatype Button = Button(band: Band, octave: Octave)

  /** Position of a band in the header's declaration order. */
  function BandIndex(b: Band): (i: nat)
    ensures i < 12
  {
    match b
    case InfraredRed => 0
    case Red => 1
    case RedOrange => 2
    case Orange => 3
    case Yellow => 4
    case YellowGreen => 5
    case Green => 6
    case GreenBlue => 7
    case Blue => 8
    case BlueViolet => 9
    case Violet => 10
    case UltravioletViolet => 11
  }

  /** The band's base tone (`IR0`, `R0`, ..., `UV0`). */
  function BaseHz(b: Band): (hz: int)
    ensures 370 <= hz <= 700
  {
    match b
    case InfraredRed => 370
    case Red => 392
    case RedOrange => 415
    case Orange => 440
    case Yellow => 466
    case YellowGreen => 494
    case Green => 523
    case GreenBlue => 554
    case Blue => 587
    case BlueViolet => 622
    case Violet => 660
    case UltravioletViolet => 700
  }

  /** The up-octave tone (`IRu1`, ..., `UVu1`): exactly twice the base. */
  function UpHz(b: Band): (hz: int)
    ensures hz == 2 * BaseHz(b)
  {
    match b
    case InfraredRed => 740
    case Red => 784
    case RedOrange => 830
    case Orange => 880
    case Yellow => 932
    case YellowGreen => 988
    case Green => 1046
    case GreenBlue => 1108
    case Blue => 1174
    case BlueViolet => 1244
    case Violet => 1320
    case UltravioletViolet => 1400
  }

  /** The down-octave tone (`IRd1`, ..., `UVd1`): half the base, rounded up. */
  function DownHz(b: Band): (hz: int)
    ensures hz == (BaseHz(b) + 1) / 2
    ensures 2 * hz == BaseHz(b) || 2 * hz == BaseHz(b) + 1
  {
    match b
    case InfraredRed => 185
    case Red => 196
    case RedOrange => 208
    case Orange => 220
    case Yellow => 233
    case YellowGreen => 247
    case Green => 262
    case GreenBlue => 277
    case Blue => 294
    case BlueViolet => 311
    case Violet => 330
    case UltravioletViolet => 350
  }

  /** The tone a button plays: the value its press handler stores in `ToneSampleRateHz`. */
  function ToneHz(button: Button): (hz: int)
    ensures 185 <= hz <= 1400
  {
    match button.octave
    case Down => DownHz(button.band)
    case Base => BaseHz(button.band)
    case Up => UpHz(button.band)
  }

  /** Rounding up only matters for the three odd base tones. */
  lemma OddBases(b: Band)
    ensures BaseHz(b) % 2 == 1 <==> b in {RedOrange, Green, Blue}
    ensures b == RedOrange ==> DownHz(b) == 208
    ensures b == Green ==> DownHz(b) == 262
    ensures b == Blue ==> DownHz(b) == 294
  {
  }

  /** Base tones strictly increase in declaration order. */
  lemma BaseIncreasing(b: Band, c: Band)
    ensures BandIndex(b) < BandIndex(c) ==> BaseHz(b) < BaseHz(c)
  {
  }

  /** The three octave rows do not overlap: every down tone lies below every
      base tone, and every base tone below every up tone. */
  lemma OctavesSeparated(b: Band, c: Band)
    ensures DownHz(b) < BaseHz(c) < UpHz(b)
  {
  }

  /** No two buttons share a tone, so the 36 handlers play 36 distinct frequencies. */
  lemma ToneHzInjective(x: Button, y: Button)
    ensures ToneHz(x) == ToneHz(y) ==> x == y
  {
    if ToneHz(x) == ToneHz(y) {
      OctavesSeparated(x.band, y.band);
      OctavesSeparated(y.band, x.band);
      BaseIncreasing(x.band, y.band);
      BaseIncreasing(y.band, x.band);
    }
  }

  /** Where a button sits in `AllButtons`. */
  function ButtonIndex(x: Button): (i: nat)
    ensures i < 36
  {
    3 * BandIndex(x.band) + (match x.octave case Up => 0 case Base => 1 case Down => 2)
  }

  /** Every button, band by band in declaration order: the 36 press and 36
      release handlers of the source, one per entry. */
  function AllButtons(): (r: seq<Button>)
    ensures |r| == 36
    ensures forall x: Button :: r[ButtonIndex(x)] == x
    ensures forall i, j :: 0 <= i < j < |r| ==> r[i] != r[j]
  {
    var bands := [InfraredRed, Red, RedOrange, Orange, Yellow, YellowGreen,
                  Green, GreenBlue, Blue, BlueViolet, Violet, UltravioletViolet];
    seq(36, i requires 0 <= i < 36 => Button(bands[i / 3], [Up, Base, Down][i % 3]))
  }
}
