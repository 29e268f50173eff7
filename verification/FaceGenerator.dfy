/**
 The generator of random faces. Every choice is a tick of the clock modulo the number of
 candidates; the ticks are arbitrary.
 */
module FaceGenerator {
  import opened CreateIds
  import opened FaceTables
  import opened Records
  import opened Words

  datatype Sex = Male | Female | AnySex

  datatype Age = Child | Adult | Elder | AnyAge

  datatype Race = Black | White | Asian | AnyRace

  type Ticks = nat -> u32

  /** The draw number k from `max` candidates. */
  function Rand(ticks: Ticks, k: nat, max: nat): (r: nat)
    requires max > 0
    ensures r < max
  {
    ticks(k) % max
  }

  /** The draw number k from the candidates of a row. */
  function PickAt(ticks: Ticks, k: nat, row: seq<int>): (r: int)
    requires |row| > 0
    ensures r in row
  {
    row[Rand(ticks, k, |row|)]
  }

  /** `OSGetTick`: any stream of ticks. */
  class Clock {
    const ticks: Ticks
    var now: nat

    constructor (ticks: Ticks)
      ensures this.ticks == ticks && now == 0
    {
      this.ticks, now := ticks, 0;
    }

    /** `RFLi_GetRandU32`. */
    method GetRandU32(max: nat) returns (r: nat)
      requires max > 0
      modifies this
      ensures r == Rand(ticks, old(now), max) && now == old(now) + 1
    {
      r := ticks(now) % max;
      now := now + 1;
    }

    /** One of the candidates of a row. */
    method Pick(row: seq<int>) returns (r: int)
      requires |row| > 0
      modifies this
      ensures r == PickAt(ticks, old(now), row) && now == old(now) + 1
    {
      var k := GetRandU32(|row|);
      r := row[k];
    }
  }

  /** `RFLiSetTemporaryID`. */
  function WithTemporaryID(i: CharInfo): CharInfo {
    i.(createID := CreateID(0x2000_0000, 0))
  }

  function SexIndex(sex: Sex): (index: nat)
    ensures index < 2
  {
    if sex.Male? then 0 else 1
  }

  function AgeIndex(age: Age): (index: nat)
    ensures index < 3
  {
    match age
    case Child => 0
    case Adult => 1
    case _ => 2
  }

  function RaceIndex(race: Race): (index: nat)
    ensures index < 3
  {
    match race
    case Black => 0
    case White => 1
    case _ => 2
  }

  function RowIndex(sex: Sex, age: Age, race: Race): (index: nat)
    ensures index < 18
  {
    SexIndex(sex) * 9 + AgeIndex(age) * 3 + RaceIndex(race)
  }

  /** What is picked from a row of candidates, in the order of picking. */
  datatype Part = FacelineType | FaceColor | FaceTexture | HairType | HairColor | EyeType | EyeColor | EyebrowType |
                  NoseType | MouthType

  /** The largest number the field of the part can hold and stay valid. */
  function Limit(part: Part): nat {
    match part
    case FacelineType => 7
    case FaceColor => 5
    case FaceTexture => 11
    case HairType => 71
    case HairColor => 7
    case EyeType => 47
    case EyeColor => 5
    case EyebrowType => 23
    case NoseType => 11
    case MouthType => 23
  }

  /** The candidates for a part. */
  function Row(part: Part, sex: Sex, age: Age, race: Race): (row: seq<int>)
    ensures AtMost(row, Limit(part))
  {
    hide FacelineTypes, FaceColors, FaceTextures, HairParts, HairColors;
    hide EyeParts, EyeColors, EyebrowParts, NoseParts, MouthParts;
    match part
    case FacelineType => FacelineTypes(RowIndex(sex, age, race))
    case FaceColor => FaceColors(SexIndex(sex) * 3 + RaceIndex(race))
    case FaceTexture => FaceTextures(RowIndex(sex, age, race))
    case HairType => HairParts(RowIndex(sex, age, race))
    case HairColor => HairColors(RaceIndex(race) * 3 + AgeIndex(age))
    case EyeType => EyeParts(RowIndex(sex, age, race))
    case EyeColor => EyeColors(RaceIndex(race))
    case EyebrowType => EyebrowParts(RowIndex(sex, age, race))
    case NoseType => NoseParts(RowIndex(sex, age, race))
    case MouthType => MouthParts(RowIndex(sex, age, race))
  }

  /** The numbers of the sexes, ages and races: nine rows to a sex, men first, and three to an
      age, children first. */
  lemma IndicesExactly(sex: Sex, age: Age, race: Race, s: nat, a: nat, r: nat)
    requires (sex.Male? && s == 0) || (sex.Female? && s == 1)
    requires (age.Child? && a == 0) || (age.Adult? && a == 1) || (age.Elder? && a == 2)
    requires (race.Black? && r == 0) || (race.White? && r == 1) || (race.Asian? && r == 2)
    ensures SexIndex(sex) == s && AgeIndex(age) == a && RaceIndex(race) == r
    ensures RowIndex(sex, age, race) == 9 * s + 3 * a + r
  {
  }

  /** The table of each part. */
  lemma RowsExactly(sex: Sex, age: Age, race: Race)
    ensures var k := RowIndex(sex, age, race);
      && Row(FacelineType, sex, age, race) == FacelineTypes(k) && Row(FaceTexture, sex, age, race) == FaceTextures(k)
      && Row(HairType, sex, age, race) == HairParts(k) && Row(EyeType, sex, age, race) == EyeParts(k)
      && Row(EyebrowType, sex, age, race) == EyebrowParts(k) && Row(NoseType, sex, age, race) == NoseParts(k)
      && Row(MouthType, sex, age, race) == MouthParts(k)
  {
    hide FacelineTypes, FaceColors, FaceTextures, HairParts, HairColors, AtMost, Limit;
    hide EyeParts, EyeColors, EyebrowParts, NoseParts, MouthParts, RowIndex, SexIndex, AgeIndex, RaceIndex;
  }

  /** The tables of colors have three rows to a sex or race. */
  lemma FaceColorRow(sex: Sex, age: Age, race: Race)
    ensures Row(FaceColor, sex, age, race) == FaceColors(SexIndex(sex) * 3 + RaceIndex(race))
  {
    hide FacelineTypes, FaceColors, FaceTextures, HairParts, HairColors, AtMost, Limit;
    hide EyeParts, EyeColors, EyebrowParts, NoseParts, MouthParts, RowIndex, SexIndex, AgeIndex, RaceIndex;
  }

  lemma EyeColorRow(sex: Sex, age: Age, race: Race)
    ensures Row(EyeColor, sex, age, race) == EyeColors(RaceIndex(race))
  {
    hide FacelineTypes, FaceColors, FaceTextures, HairParts, HairColors, AtMost, Limit;
    hide EyeParts, EyeColors, EyebrowParts, NoseParts, MouthParts, RowIndex, SexIndex, AgeIndex, RaceIndex;
  }

  lemma HairColorRow(sex: Sex, age: Age, race: Race)
    ensures Row(HairColor, sex, age, race) == HairColors(RaceIndex(race) * 3 + AgeIndex(age))
  {
    hide FacelineTypes, FaceColors, FaceTextures, HairParts, HairColors, AtMost, Limit;
    hide EyeParts, EyeColors, EyebrowParts, NoseParts, MouthParts, RowIndex, SexIndex, AgeIndex, RaceIndex;
  }

  // ---------------------------------------------------------------- the words of a face

  function FacelineWord(was: bv16, kind: nat, color: nat, texture: nat): (w: bv16)
    requires kind <= 7 && color <= 5 && texture <= 11
    ensures CheckFaceline(w) && Get(w, 13, 7) == kind as bv16
    ensures Get(w, 10, 7) == color as bv16 && Get(w, 6, 15) == texture as bv16
  {
    Put(Put(Put(was, 13, 7, kind as bv16), 10, 7, color as bv16), 6, 15, texture as bv16)
  }

  function HairWord(was: bv16, kind: nat, color: nat, flip: nat): (w: bv16)
    requires kind <= 71 && color <= 7 && flip <= 1
    ensures CheckHair(w) && Get(w, 9, 0x7F) == kind as bv16 && Get(w, 6, 7) == color as bv16
  {
    Put(Put(Put(was, 9, 0x7F, kind as bv16), 6, 7, color as bv16), 5, 1, flip as bv16)
  }

  function EyeWord(was: bv32, kind: nat, color: nat, rotate: nat, y: nat): (w: bv32)
    requires kind <= 47 && color <= 5 && rotate <= 7 && y <= 4
  {
    Put32(Put32(Put32(Put32(Put32(Put32(was, 26, 0x3F, kind as bv16), 23, 7, color as bv16), 19, 15, 4),
                      14, 0x1F, rotate as bv16), 10, 15, 2), 5, 0x1F, (y + 12) as bv16)
  }

  function EyebrowWord(was: bv32, kind: nat, color: nat, rotate: nat, y: nat): (w: bv32)
    requires kind <= 23 && color <= 7 && rotate <= 11 && y <= 14
  {
    Put32(Put32(Put32(Put32(Put32(Put32(was, 27, 0x1F, kind as bv16), 24, 7, color as bv16), 20, 15, 4),
                      15, 0x1F, rotate as bv16), 11, 15, 2), 6, 0x1F, y as bv16)
  }

  lemma EyeWordValid(was: bv32, kind: nat, color: nat, rotate: nat, y: nat)
    requires kind <= 47 && color <= 5 && rotate <= 7 && y <= 4
    ensures CheckEye(EyeWord(was, kind, color, rotate, y))
    ensures Get32(EyeWord(was, kind, color, rotate, y), 26, 0x3F) == kind as bv16
    ensures Get32(EyeWord(was, kind, color, rotate, y), 23, 7) == color as bv16
  {
  }

  lemma EyebrowWordValid(was: bv32, kind: nat, color: nat, rotate: nat, y: nat)
    requires kind <= 23 && color <= 7 && rotate <= 11 && 3 <= y <= 14
    ensures CheckEyebrow(EyebrowWord(was, kind, color, rotate, y))
    ensures Get32(EyebrowWord(was, kind, color, rotate, y), 27, 0x1F) == kind as bv16
    ensures Get32(EyebrowWord(was, kind, color, rotate, y), 24, 7) == color as bv16
  {
  }

  function NoseWord(was: bv16, kind: nat, scale: nat, y: nat): (w: bv16)
    requires kind <= 11 && scale <= 8 && y <= 18
  {
    Put(Put(Put(was, 12, 15, kind as bv16), 8, 15, scale as bv16), 3, 0x1F, y as bv16)
  }

  function MouthWord(was: bv16, kind: nat, color: nat, y: nat): (w: bv16)
    requires kind <= 23 && color <= 2 && y <= 18
  {
    Put(Put(Put(Put(was, 11, 0x1F, kind as bv16), 9, 3, color as bv16), 5, 15, 4), 0, 0x1F, y as bv16)
  }

  lemma NoseWordValid(was: bv16, kind: nat, scale: nat, y: nat)
    requires kind <= 11 && scale <= 8 && y <= 18
    ensures CheckNose(NoseWord(was, kind, scale, y)) && Get(NoseWord(was, kind, scale, y), 12, 15) == kind as bv16
  {
  }

  lemma MouthWordValid(was: bv16, kind: nat, color: nat, y: nat)
    requires kind <= 23 && color <= 2 && y <= 18
    ensures CheckMouth(MouthWord(was, kind, color, y))
    ensures Get(MouthWord(was, kind, color, y), 11, 0x1F) == kind as bv16
  {
  }

  function BeardWord(was: bv16, mustache: nat, kind: nat, color: nat, scale: nat, y: nat): (w: bv16)
    requires mustache <= 3 && kind <= 3 && color <= 7 && scale <= 8 && y <= 16
  {
    Put(Put(Put(Put(Put(was, 14, 3, mustache as bv16), 12, 3, kind as bv16), 9, 7, color as bv16),
            5, 15, scale as bv16), 0, 0x1F, y as bv16)
  }

  function GlassWord(was: bv16, kind: nat, y: nat): (w: bv16)
    requires kind <= 8 && y <= 20
  {
    Put(Put(Put(Put(was, 12, 15, kind as bv16), 9, 7, 0), 5, 15, 4), 0, 0x1F, y as bv16)
  }

  lemma BeardWordValid(was: bv16, mustache: nat, kind: nat, color: nat, scale: nat, y: nat)
    requires mustache <= 3 && kind <= 3 && color <= 7 && scale <= 8 && y <= 16
    ensures CheckBeard(BeardWord(was, mustache, kind, color, scale, y))
  {
  }

  lemma GlassWordValid(was: bv16, kind: nat, y: nat)
    requires kind <= 8 && y <= 20
    ensures CheckGlass(GlassWord(was, kind, y))
  {
  }

  function MoleWord(was: bv16, x: nat, y: nat): (w: bv16)
    requires x <= 16 && y <= 30
    ensures CheckMole(w)
  {
    Put(Put(Put(Put(was, 15, 1, 0), 11, 15, 4), 6, 0x1F, x as bv16), 1, 0x1F, y as bv16)
  }

  function PersonalWord(sex: nat, color: nat): (w: bv16)
    requires sex <= 1 && color < 12
    ensures Get(w, 15, 1) == sex as bv16 && Get(w, 11, 15) == 0 && Get(w, 6, 0x1F) == 0 && Get(w, 2, 15) < 12
    ensures Get(w, 2, 15) == color as bv16 && Get(w, 1, 1) == 0 && Get(w, 0, 1) == 0
  {
    Put(Put(0, 15, 1, sex as bv16), 2, 15, color as bv16)
  }

  // ---------------------------------------------------------------- the words by their bits

  predicate FacelineHas(w: bv16, kind: bv16, color: bv16, texture: bv16) {
    (w >> 13) & 7 == kind && (w >> 10) & 7 == color && (w >> 6) & 15 == texture
  }

  lemma FacelineInPlace(was: bv16, kind: nat, color: nat, texture: nat)
    requires kind <= 7 && color <= 5 && texture <= 11
    ensures FacelineHas(FacelineWord(was, kind, color, texture), kind as bv16, color as bv16, texture as bv16)
  {
  }

  predicate HairHas(w: bv16, kind: bv16, color: bv16, flip: bv16) {
    (w >> 9) & 0x7F == kind && (w >> 6) & 7 == color && (w >> 5) & 1 == flip
  }

  lemma HairInPlace(was: bv16, kind: nat, color: nat, flip: nat)
    requires kind <= 71 && color <= 7 && flip <= 1
    ensures HairHas(HairWord(was, kind, color, flip), kind as bv16, color as bv16, flip as bv16)
  {
  }

  predicate EyeHas(w: bv32, kind: bv16, color: bv16, rotate: bv16, y: bv16) {
    && ((w >> 26) & 0x3F) as bv16 == kind && ((w >> 23) & 7) as bv16 == color
    && (w >> 19) & 15 == 4 && ((w >> 14) & 0x1F) as bv16 == rotate && (w >> 10) & 15 == 2
    && ((w >> 5) & 0x1F) as bv16 == y
  }

  lemma EyeInPlace(was: bv32, kind: nat, color: nat, rotate: nat, y: nat)
    requires kind <= 47 && color <= 5 && rotate <= 7 && y <= 4
    ensures EyeHas(EyeWord(was, kind, color, rotate, y),
            kind as bv16, color as bv16, rotate as bv16, (y + 12) as bv16)
  {
  }

  predicate EyebrowHas(w: bv32, kind: bv16, color: bv16, rotate: bv16, y: bv16) {
    && ((w >> 27) & 0x1F) as bv16 == kind && ((w >> 24) & 7) as bv16 == color
    && (w >> 20) & 15 == 4 && ((w >> 15) & 0x1F) as bv16 == rotate && (w >> 11) & 15 == 2
    && ((w >> 6) & 0x1F) as bv16 == y
  }

  lemma EyebrowInPlace(was: bv32, kind: nat, color: nat, rotate: nat, y: nat)
    requires kind <= 23 && color <= 7 && rotate <= 11 && y <= 14
    ensures EyebrowHas(EyebrowWord(was, kind, color, rotate, y),
            kind as bv16, color as bv16, rotate as bv16, y as bv16)
  {
  }

  predicate NoseHas(w: bv16, kind: bv16, scale: bv16, y: bv16) {
    (w >> 12) & 15 == kind && (w >> 8) & 15 == scale && (w >> 3) & 0x1F == y
  }

  lemma NoseInPlace(was: bv16, kind: nat, scale: nat, y: nat)
    requires kind <= 11 && scale <= 8 && y <= 18
    ensures NoseHas(NoseWord(was, kind, scale, y), kind as bv16, scale as bv16, y as bv16)
  {
  }

  predicate MouthHas(w: bv16, kind: bv16, color: bv16, y: bv16) {
    && (w >> 11) & 0x1F == kind && (w >> 9) & 3 == color && (w >> 5) & 15 == 4
    && w & 0x1F == y
  }

  lemma MouthInPlace(was: bv16, kind: nat, color: nat, y: nat)
    requires kind <= 23 && color <= 2 && y <= 18
    ensures MouthHas(MouthWord(was, kind, color, y), kind as bv16, color as bv16, y as bv16)
  {
  }

  predicate BeardHas(w: bv16, mustache: bv16, kind: bv16, color: bv16, scale: bv16, y: bv16) {
    && (w >> 14) & 3 == mustache && (w >> 12) & 3 == kind && (w >> 9) & 7 == color
    && (w >> 5) & 15 == scale && w & 0x1F == y
  }

  lemma BeardInPlace(was: bv16, mustache: nat, kind: nat, color: nat, scale: nat, y: nat)
    requires mustache <= 3 && kind <= 3 && color <= 7 && scale <= 8 && y <= 16
    ensures BeardHas(BeardWord(was, mustache, kind, color, scale, y),
            mustache as bv16, kind as bv16, color as bv16, scale as bv16, y as bv16)
  {
  }

  predicate GlassHas(w: bv16, kind: bv16, y: bv16) {
    (w >> 12) & 15 == kind && (w >> 9) & 7 == 0 && (w >> 5) & 15 == 4 && w & 0x1F == y
  }

  lemma GlassInPlace(was: bv16, kind: nat, y: nat)
    requires kind <= 8 && y <= 20
    ensures GlassHas(GlassWord(was, kind, y), kind as bv16, y as bv16)
  {
  }

  predicate MoleHas(w: bv16, x: bv16, y: bv16) {
    (w >> 15) & 1 == 0 && (w >> 11) & 15 == 4 && (w >> 6) & 0x1F == x && (w >> 1) & 0x1F == y
  }

  lemma MoleInPlace(was: bv16, x: nat, y: nat)
    requires x <= 16 && y <= 30
    ensures MoleHas(MoleWord(was, x, y), x as bv16, y as bv16)
  {
  }

  /** The sex in bit 15, no birthday, the color in bits 5 to 2, no favorite, not local. */
  predicate PersonalHas(w: bv16, sex: Sex, color: bv16) {
    && (w >> 15) & 1 == (if sex.Male? then 0 else 1) && (w >> 6) & 0x1FF == 0 && (w >> 2) & 15 == color
    && w & 3 == 0
  }

  lemma PersonalInPlace(sex: Sex, color: nat)
    requires color < 12
    ensures PersonalHas(PersonalWord(SexIndex(sex), color), sex, color as bv16)
  {
  }

  // ---------------------------------------------------------------- the choices

  datatype Beard = Beard(mustache: nat, kind: nat, color: nat, scale: nat, y: nat)

  /** What is drawn for a face of a definite sex, age and race. */
  datatype Choices = Choices(y: nat, parts: Parts, flip: nat, mouthColor: nat, beard: Beard, glass: nat,
                             moleX: nat, moleY: nat, favorite: nat)

  datatype Parts = Parts(face: nat, faceColor: nat, texture: nat, hair: nat, hairColor: nat, eye: nat, eyeColor: nat,
                         brow: nat, nose: nat, mouth: nat)
  {
    function Of(part: Part): nat {
      match part
      case FacelineType => face
      case FaceColor => faceColor
      case FaceTexture => texture
      case HairType => hair
      case HairColor => hairColor
      case EyeType => eye
      case EyeColor => eyeColor
      case EyebrowType => brow
      case NoseType => nose
      case MouthType => mouth
    }
  }

  /** `RFLi_GetGlassType`. */
  function GlassType(age: Age, rand: nat): (kind: nat)
    ensures kind <= 7
  {
    match age
    case Child => if rand < 90 then 0 else if rand < 94 then 1 else if rand < 96 then 2 else 3
    case Adult =>
      if rand < 83 then 0 else if rand < 86 then 1 else if rand < 90 then 2 else if rand < 93 then 3
      else if rand < 94 then 4 else if rand < 96 then 5 else if rand < 98 then 6 else 7
    case Elder => if rand < 78 then 0 else if rand < 83 then 1 else if rand < 93 then 3 else if rand < 98 then 6 else 7
    case AnyAge => 0
  }

  /** The glasses by the thresholds of the draw from a hundred. */
  lemma GlassTypeExactly(rand: nat)
    ensures var g := GlassType(Child, rand);
      (g >= 1 <==> rand >= 90) && (g >= 2 <==> rand >= 94) && (g >= 3 <==> rand >= 96) && g <= 3
    ensures var g := GlassType(Adult, rand);
      && (g >= 1 <==> rand >= 83) && (g >= 2 <==> rand >= 86) && (g >= 3 <==> rand >= 90)
      && (g >= 4 <==> rand >= 93) && (g >= 5 <==> rand >= 94) && (g >= 6 <==> rand >= 96)
      && (g >= 7 <==> rand >= 98) && g <= 7
    ensures var g := GlassType(Elder, rand);
      && (g >= 1 <==> rand >= 78) && (g >= 3 <==> rand >= 83) && (g >= 6 <==> rand >= 93)
      && (g >= 7 <==> rand >= 98) && g <= 7 && g !in {2, 4, 5}
  {
  }

  /** The beard drawn from draw number k on, and the number of the next draw. */
  function BeardAt(ticks: Ticks, k: nat, sex: Sex, age: Age, hairColor: nat): (Beard, nat) {
    if !sex.Male? || !(age.Adult? || age.Elder?) then (Beard(0, 0, 0, 0, 0), k)
    else if Rand(ticks, k, 10) >= 2 then (Beard(0, 0, 0, 0, 0), k + 1)
    else
      match Rand(ticks, k + 1, 3)
      case 0 => (Beard(0, Rand(ticks, k + 2, 3) + 1, hairColor, 4, 10), k + 3)
      case 1 => (Beard(Rand(ticks, k + 2, 3) + 1, 0, hairColor, 4, 10), k + 3)
      case _ => (Beard(Rand(ticks, k + 2, 3) + 1, Rand(ticks, k + 3, 3) + 1, hairColor, 4, 10), k + 4)
  }

  /** The number of extra draws of a woman, of a child. */
  function WomanDraws(sex: Sex): nat {
    if sex.Female? then 1 else 0
  }

  function ChildDraws(age: Age): nat {
    if age.Child? then 1 else 0
  }

  /** How far the parts of the face move down. */
  function ShiftAt(ticks: Ticks, k: nat, sex: Sex, age: Age): (y: nat)
    ensures y <= 4
  {
    (if sex.Female? then Rand(ticks, k, 3) else 0) + (if age.Child? then Rand(ticks, k + WomanDraws(sex), 3) else 0)
  }

  /** The draw number k from the candidates for a part. */
  function PartAt(ticks: Ticks, k: nat, part: Part, sex: Sex, age: Age, race: Race): (r: nat)
    ensures r in Row(part, sex, age, race) && r <= Limit(part)
  {
    hide Row;
    PickAt(ticks, k, Row(part, sex, age, race))
  }

  /** The parts drawn from draw number k on; between the color of the hair and the eyes
      one draw decides whether the hair is flipped. */
  function PartsAt(ticks: Ticks, k: nat, sex: Sex, age: Age, race: Race): Parts {
    hide Row, Limit, PartAt;
    Parts(PartAt(ticks, k, FacelineType, sex, age, race), PartAt(ticks, k + 1, FaceColor, sex, age, race),
          PartAt(ticks, k + 2, FaceTexture, sex, age, race), PartAt(ticks, k + 3, HairType, sex, age, race),
          PartAt(ticks, k + 4, HairColor, sex, age, race), PartAt(ticks, k + 6, EyeType, sex, age, race),
          PartAt(ticks, k + 7, EyeColor, sex, age, race), PartAt(ticks, k + 8, EyebrowType, sex, age, race),
          PartAt(ticks, k + 9, NoseType, sex, age, race), PartAt(ticks, k + 10, MouthType, sex, age, race))
  }

  /** The choices drawn from draw number k on, and the number of the next draw. */
  function ChoicesAt(ticks: Ticks, k: nat, sex: Sex, age: Age, race: Race): (Choices, nat) {
    hide PartsAt, BeardAt;
    var h := k + WomanDraws(sex) + ChildDraws(age);
    var parts := PartsAt(ticks, h, sex, age, race);
    var drawn := BeardAt(ticks, h + 11 + WomanDraws(sex), sex, age, parts.hairColor);
    var e := drawn.1;
    (Choices(ShiftAt(ticks, k, sex, age), parts, Rand(ticks, h + 5, 2),
             if sex.Female? then Rand(ticks, h + 11, 3) else 0, drawn.0, GlassType(age, Rand(ticks, e, 100)),
             Rand(ticks, e + 1, 17), Rand(ticks, e + 2, 31), Rand(ticks, e + 3, 12)),
     e + 4)
  }

  /** Every part is a candidate for this sex, age and race, in the limits of its field. */
  ghost predicate Candidates(p: Parts, sex: Sex, age: Age, race: Race) {
    forall part: Part :: p.Of(part) in Row(part, sex, age, race) && p.Of(part) <= Limit(part)
  }

  /** The numbers of the parts fit their fields. */
  predicate PartsFit(p: Parts) {
    && p.face <= 7 && p.faceColor <= 5 && p.texture <= 11 && p.hair <= 71 && p.hairColor <= 7 && p.eye <= 47
    && p.eyeColor <= 5 && p.brow <= 23 && p.nose <= 11 && p.mouth <= 23
  }

  predicate BeardFits(b: Beard) {
    b.mustache <= 3 && b.kind <= 3 && b.color <= 7 && b.scale <= 8 && b.y <= 16
  }

  /** All numbers fit their fields. */
  predicate InRange(c: Choices) {
    && PartsFit(c.parts) && BeardFits(c.beard) && c.y <= 4 && c.flip <= 1 && c.mouthColor <= 2 && c.glass <= 7
    && c.moleX <= 16 && c.moleY <= 30 && c.favorite < 12
  }

  lemma CandidatesFit(p: Parts, sex: Sex, age: Age, race: Race)
    requires Candidates(p, sex, age, race)
    ensures PartsFit(p)
  {
    hide Row;
    assert p.Of(FacelineType) <= 7 && p.Of(FaceColor) <= 5 && p.Of(FaceTexture) <= 11 && p.Of(HairType) <= 71;
    assert p.Of(HairColor) <= 7 && p.Of(EyeType) <= 47 && p.Of(EyeColor) <= 5 && p.Of(EyebrowType) <= 23;
    assert p.Of(NoseType) <= 11 && p.Of(MouthType) <= 23;
  }

  lemma PartsAreCandidates(ticks: Ticks, k: nat, sex: Sex, age: Age, race: Race)
    ensures Candidates(PartsAt(ticks, k, sex, age, race), sex, age, race)
  {
    hide Row, Limit, PartAt;
  }

  lemma BeardsFit(ticks: Ticks, k: nat, sex: Sex, age: Age, hairColor: nat)
    requires hairColor <= 7
    ensures BeardFits(BeardAt(ticks, k, sex, age, hairColor).0)
  {
    hide Rand;
  }

  /** Whatever the ticks, the parts are candidates and every number fits its field. */
  lemma ChoicesLegal(ticks: Ticks, k: nat, sex: Sex, age: Age, race: Race)
    ensures var c := ChoicesAt(ticks, k, sex, age, race).0; InRange(c) && Candidates(c.parts, sex, age, race)
  {
    hide PartsAt, Candidates, BeardAt, BeardFits, PartsFit, Rand, GlassType, ShiftAt;
    var h := k + WomanDraws(sex) + ChildDraws(age);
    var p := PartsAt(ticks, h, sex, age, race);
    PartsAreCandidates(ticks, h, sex, age, race);
    CandidatesFit(p, sex, age, race);
    assert p.hairColor <= 7 by { HairColorFits(p); }
    BeardsFit(ticks, h + 11 + WomanDraws(sex), sex, age, p.hairColor);
  }

  lemma HairColorFits(p: Parts)
    requires PartsFit(p)
    ensures p.hairColor <= 7
  {
  }

  // ---------------------------------------------------------------- packing the choices

  function EyeRotation(sex: Sex, kind: nat): (rotate: nat)
    requires kind <= 47
    ensures rotate <= 7
  {
    assert EyeRotOffsets()[kind] in EyeRotOffsets();
    assert EyeRotOffsets()[2] in EyeRotOffsets() && EyeRotOffsets()[4] in EyeRotOffsets();
    if sex.Male? then 4 + (EyeRotOffsets()[2] - EyeRotOffsets()[kind])
    else 3 + (EyeRotOffsets()[4] - EyeRotOffsets()[kind])
  }

  function EyebrowRotation(race: Race, kind: nat): (rotate: nat)
    requires kind <= 23
    ensures rotate <= 11
  {
    assert EyebrowRotOffsets()[kind] in EyebrowRotOffsets();
    assert EyebrowRotOffsets()[6] in EyebrowRotOffsets() && EyebrowRotOffsets()[0] in EyebrowRotOffsets();
    6 + (EyebrowRotOffsets()[if race.Asian? then 6 else 0] - EyebrowRotOffsets()[kind])
  }

  const NO_NAME: NameZ := [110, 111, 32, 110, 97, 109, 101, 0, 0, 0, 0]
  const NO_CREATOR: NameZ := [0, 0, 0, 0, 0, 0, 0, 0, 0, 0, 0]

  function EyebrowY(c: Choices, race: Race): nat {
    if race.Asian? then c.y + 9 else c.y + 10
  }

  /** The face with these choices, in memory that held `was`. */
  function Face(c: Choices, sex: Sex, race: Race, was: CharInfo): CharInfo
    requires InRange(c)
  {
    hide FacelineWord, HairWord, EyeWord, EyebrowWord, NoseWord, MouthWord, BeardWord, GlassWord, MoleWord;
    hide PersonalWord, EyeRotation, EyebrowRotation;
    var p := c.parts;
    CharInfo(FacelineWord(was.faceline, p.face, p.faceColor, p.texture),
             HairWord(was.hair, p.hair, p.hairColor, c.flip),
             EyeWord(was.eye, p.eye, p.eyeColor, EyeRotation(sex, p.eye), c.y),
             EyebrowWord(was.eyebrow, p.brow, p.hairColor, EyebrowRotation(race, p.brow), EyebrowY(c, race)),
             NoseWord(was.nose, p.nose, if sex.Male? then 4 else 3, c.y + 9),
             MouthWord(was.mouth, p.mouth, c.mouthColor, c.y + 13),
             BeardWord(was.beard, c.beard.mustache, c.beard.kind, c.beard.color, c.beard.scale, c.beard.y),
             GlassWord(was.glass, c.glass, c.y + 10), MoleWord(was.mole, c.moleX, c.moleY), 64, 64,
             NO_NAME, NO_CREATOR, PersonalWord(SexIndex(sex), c.favorite), was.createID)
  }

  /** The parts that a face shows are these choices. */
  predicate Shows(i: CharInfo, p: Parts, sex: Sex)
    requires PartsFit(p)
  {
    && Get(i.faceline, 13, 7) == p.face as bv16 && Get(i.faceline, 10, 7) == p.faceColor as bv16
    && Get(i.faceline, 6, 15) == p.texture as bv16
    && Get(i.hair, 9, 0x7F) == p.hair as bv16 && Get(i.hair, 6, 7) == p.hairColor as bv16
    && Get32(i.eye, 26, 0x3F) == p.eye as bv16 && Get32(i.eye, 23, 7) == p.eyeColor as bv16
    && Get32(i.eyebrow, 27, 0x1F) == p.brow as bv16 && Get32(i.eyebrow, 24, 7) == p.hairColor as bv16
    && Get(i.nose, 12, 15) == p.nose as bv16 && Get(i.mouth, 11, 0x1F) == p.mouth as bv16
    && (i.personal >> 15) & 1 == if sex.Male? then 0 else 1
  }

  lemma EyesOfFace(c: Choices, sex: Sex, race: Race, was: CharInfo)
    requires InRange(c)
    ensures var i := Face(c, sex, race, was);
            && CheckEyes(i.eye, i.eyebrow)
            && Get32(i.eye, 26, 0x3F) == c.parts.eye as bv16 && Get32(i.eye, 23, 7) == c.parts.eyeColor as bv16
            && Get32(i.eyebrow, 27, 0x1F) == c.parts.brow as bv16
            && Get32(i.eyebrow, 24, 7) == c.parts.hairColor as bv16
  {
    hide CheckFaceline, CheckHair, CheckEye, CheckEyebrow, CheckNose, CheckMouth, CheckMole, EyeWord, EyebrowWord;
    hide FacelineWord, HairWord, NoseWord, MouthWord, BeardWord, GlassWord, MoleWord;
    hide PersonalWord, Get, Get32, EyeRotation, EyebrowRotation;
    var p := c.parts;
    EyeWordValid(was.eye, p.eye, p.eyeColor, EyeRotation(sex, p.eye), c.y);
    EyebrowWordValid(was.eyebrow, p.brow, p.hairColor, EyebrowRotation(race, p.brow), EyebrowY(c, race));
  }

  lemma ExtrasOfFace(c: Choices, sex: Sex, race: Race, was: CharInfo)
    requires InRange(c)
    ensures CheckExtras(Face(c, sex, race, was).beard, Face(c, sex, race, was).glass)
  {
    hide CheckFaceline, CheckHair, CheckNose, CheckMouth, CheckBeard, CheckGlass, CheckMole, BeardWord, GlassWord;
    hide FacelineWord, HairWord, EyeWord, EyebrowWord, NoseWord, MouthWord, MoleWord;
    hide PersonalWord, Get, Get32, EyeRotation, EyebrowRotation;
    BeardWordValid(was.beard, c.beard.mustache, c.beard.kind, c.beard.color, c.beard.scale, c.beard.y);
    GlassWordValid(was.glass, c.glass, c.y + 10);
  }

  lemma PlainWordsOfFace(c: Choices, sex: Sex, race: Race, was: CharInfo)
    requires InRange(c)
    ensures var i := Face(c, sex, race, was);
            && CheckFaceline(i.faceline) && CheckHair(i.hair) && CheckNose(i.nose) && CheckMouth(i.mouth)
            && CheckMole(i.mole)
            && Get(i.nose, 12, 15) == c.parts.nose as bv16 && Get(i.mouth, 11, 0x1F) == c.parts.mouth as bv16
  {
    hide CheckFaceline, CheckHair, CheckNose, CheckMouth, CheckMole, EyeWord, EyebrowWord;
    hide FacelineWord, HairWord, NoseWord, MouthWord, BeardWord, GlassWord, MoleWord;
    hide PersonalWord, Get, Get32, EyeRotation, EyebrowRotation;
    NoseWordValid(was.nose, c.parts.nose, if sex.Male? then 4 else 3, c.y + 9);
    MouthWordValid(was.mouth, c.parts.mouth, c.mouthColor, c.y + 13);
  }

  lemma FaceShows(c: Choices, sex: Sex, race: Race, was: CharInfo)
    requires InRange(c)
    ensures Shows(Face(c, sex, race, was), c.parts, sex) && Terminated(Face(c, sex, race, was))
  {
    hide FacelineWord, HairWord, EyeWord, EyebrowWord, NoseWord, MouthWord, BeardWord, GlassWord, MoleWord;
    PersonalInPlace(sex, c.favorite);
    hide PersonalWord, Get, Get32, EyeRotation, EyebrowRotation, SexIndex;
    hide CheckFaceline, CheckHair, CheckEye, CheckEyebrow, CheckNose, CheckMouth, CheckMole, CheckEyes;
    EyesOfFace(c, sex, race, was);
    PlainWordsOfFace(c, sex, race, was);
  }

  /** The offsets of the reference parts make up for the different starts of the sexes: every
      eye is turned by 32 less its own offset, and so is every eyebrow. */
  lemma RotationsExactly(sex: Sex, race: Race, eye: nat, brow: nat)
    requires eye <= 47 && brow <= 23
    ensures EyeRotation(sex, eye) == 32 - EyeRotOffsets()[eye] <= 7
    ensures EyebrowRotation(race, brow) == 32 - EyebrowRotOffsets()[brow] <= 11
  {
  }

  lemma FacelineOfFace(c: Choices, sex: Sex, race: Race, was: CharInfo)
    requires InRange(c)
    ensures var i, p := Face(c, sex, race, was), c.parts;
      && FacelineHas(i.faceline, p.face as bv16, p.faceColor as bv16, p.texture as bv16)
      && HairHas(i.hair, p.hair as bv16, p.hairColor as bv16, c.flip as bv16)
  {
    FacelineInPlace(was.faceline, c.parts.face, c.parts.faceColor, c.parts.texture);
    HairInPlace(was.hair, c.parts.hair, c.parts.hairColor, c.flip);
    hide FacelineHas, HairHas;
    hide FacelineWord, HairWord, EyeWord, EyebrowWord, NoseWord, MouthWord, BeardWord, GlassWord, MoleWord;
    hide PersonalWord, EyeRotation, EyebrowRotation, SexIndex, Get, Get32, CheckFaceline, CheckHair, CheckMole;
  }

  lemma NoseOfFace(c: Choices, sex: Sex, race: Race, was: CharInfo)
    requires InRange(c)
    ensures NoseHas(Face(c, sex, race, was).nose, c.parts.nose as bv16, if sex.Male? then 4 else 3, (c.y + 9) as bv16)
  {
    NoseInPlace(was.nose, c.parts.nose, if sex.Male? then 4 else 3, c.y + 9);
    hide NoseHas;
    hide FacelineWord, HairWord, EyeWord, EyebrowWord, NoseWord, MouthWord, BeardWord, GlassWord, MoleWord;
    hide PersonalWord, EyeRotation, EyebrowRotation, SexIndex, Get, Get32, CheckFaceline, CheckHair, CheckMole;
  }

  lemma MouthOfFace(c: Choices, sex: Sex, race: Race, was: CharInfo)
    requires InRange(c)
    ensures var i, p := Face(c, sex, race, was), c.parts;
      MouthHas(i.mouth, p.mouth as bv16, c.mouthColor as bv16, (c.y + 13) as bv16)
  {
    MouthInPlace(was.mouth, c.parts.mouth, c.mouthColor, c.y + 13);
    hide MouthHas;
    hide FacelineWord, HairWord, EyeWord, EyebrowWord, NoseWord, MouthWord, BeardWord, GlassWord, MoleWord;
    hide PersonalWord, EyeRotation, EyebrowRotation, SexIndex, Get, Get32, CheckFaceline, CheckHair, CheckMole;
  }

  lemma BeardOfFace(c: Choices, sex: Sex, race: Race, was: CharInfo)
    requires InRange(c)
    ensures var i, b := Face(c, sex, race, was), c.beard;
      BeardHas(i.beard, b.mustache as bv16, b.kind as bv16, b.color as bv16, b.scale as bv16, b.y as bv16)
  {
    var b := c.beard;
    BeardInPlace(was.beard, b.mustache, b.kind, b.color, b.scale, b.y);
    hide BeardHas;
    hide FacelineWord, HairWord, EyeWord, EyebrowWord, NoseWord, MouthWord, BeardWord, GlassWord, MoleWord;
    hide PersonalWord, EyeRotation, EyebrowRotation, SexIndex, Get, Get32, CheckFaceline, CheckHair, CheckMole;
  }

  lemma GlassOfFace(c: Choices, sex: Sex, race: Race, was: CharInfo)
    requires InRange(c)
    ensures var i := Face(c, sex, race, was);
      GlassHas(i.glass, c.glass as bv16, (c.y + 10) as bv16) && MoleHas(i.mole, c.moleX as bv16, c.moleY as bv16)
  {
    GlassInPlace(was.glass, c.glass, c.y + 10);
    MoleInPlace(was.mole, c.moleX, c.moleY);
    hide GlassHas, MoleHas;
    hide FacelineWord, HairWord, EyeWord, EyebrowWord, NoseWord, MouthWord, BeardWord, GlassWord, MoleWord;
    hide PersonalWord, EyeRotation, EyebrowRotation, SexIndex, Get, Get32, CheckFaceline, CheckHair, CheckMole;
  }

  lemma EyeOfFace(c: Choices, sex: Sex, race: Race, was: CharInfo)
    requires InRange(c)
    ensures var i, p := Face(c, sex, race, was), c.parts;
      EyeHas(i.eye, p.eye as bv16, p.eyeColor as bv16, EyeRotation(sex, p.eye) as bv16, (c.y + 12) as bv16)
  {
    EyeInPlace(was.eye, c.parts.eye, c.parts.eyeColor, EyeRotation(sex, c.parts.eye), c.y);
    hide EyeHas;
    hide FacelineWord, HairWord, EyeWord, EyebrowWord, NoseWord, MouthWord, BeardWord, GlassWord, MoleWord;
    hide PersonalWord, EyeRotation, EyebrowRotation, SexIndex, Get, Get32, CheckFaceline, CheckHair, CheckMole;
  }

  lemma EyebrowOfFace(c: Choices, sex: Sex, race: Race, was: CharInfo)
    requires InRange(c)
    ensures var i, p := Face(c, sex, race, was), c.parts;
      EyebrowHas(i.eyebrow, p.brow as bv16, p.hairColor as bv16, EyebrowRotation(race, p.brow) as bv16,
                 (if race.Asian? then c.y + 9 else c.y + 10) as bv16)
  {
    EyebrowInPlace(was.eyebrow, c.parts.brow, c.parts.hairColor, EyebrowRotation(race, c.parts.brow),
                   EyebrowY(c, race));
    hide EyebrowHas;
    hide FacelineWord, HairWord, EyeWord, EyebrowWord, NoseWord, MouthWord, BeardWord, GlassWord, MoleWord;
    hide PersonalWord, EyeRotation, EyebrowRotation, SexIndex, Get, Get32, CheckFaceline, CheckHair, CheckMole;
  }

  lemma BodyOfFace(c: Choices, sex: Sex, race: Race, was: CharInfo)
    requires InRange(c)
    ensures var i := Face(c, sex, race, was);
      && PersonalHas(i.personal, sex, c.favorite as bv16)
      && i.height == 64 && i.build == 64 && i.createID == was.createID
      && i.name == [110, 111, 32, 110, 97, 109, 101, 0, 0, 0, 0] && i.creator == [0, 0, 0, 0, 0, 0, 0, 0, 0, 0, 0]
  {
    PersonalInPlace(sex, c.favorite);
    hide FacelineWord, HairWord, EyeWord, EyebrowWord, NoseWord, MouthWord, BeardWord, GlassWord, MoleWord;
    hide PersonalHas, PersonalWord, EyeRotation, EyebrowRotation, SexIndex, Get, Get32;
    hide CheckFaceline, CheckHair, CheckMole;
  }

  /** A face of choices in range is valid with the temporary identifier. */
  lemma FaceIsValid(c: Choices, sex: Sex, race: Race, was: CharInfo)
    requires InRange(c)
    ensures CheckValidInfo(WithTemporaryID(Face(c, sex, race, was)))
  {
    hide CheckFaceline, CheckHair, CheckEyes, CheckNose, CheckMouth, CheckExtras, CheckMole, CheckPersonal;
    hide InRange, Face, Get, Get32;
    EyesOfFace(c, sex, race, was);
    ExtrasOfFace(c, sex, race, was);
    PlainWordsOfFace(c, sex, race, was);
    PersonalIsValid(c, sex, race, was);
  }

  lemma PersonalIsValid(c: Choices, sex: Sex, race: Race, was: CharInfo)
    requires InRange(c)
    ensures CheckPersonal(WithTemporaryID(Face(c, sex, race, was)))
  {
    hide FacelineWord, HairWord, EyeWord, EyebrowWord, NoseWord, MouthWord, BeardWord, GlassWord, MoleWord;
    hide PersonalWord, Get, Get32, EyeRotation, EyebrowRotation;
    hide CheckFaceline, CheckHair, CheckNose, CheckMouth, CheckMole;
    TemporaryIsNotSpecial();
  }

  lemma TemporaryIsNotSpecial()
    ensures IsTemporaryID(CreateID(0x2000_0000, 0)) && !IsSpecialID(CreateID(0x2000_0000, 0))
  {
    var bit: nat := 0x2000_0000;
    AndSelf(bit);
  }

  // ---------------------------------------------------------------- the generator

  /** The face that draw number k starts, and the number of the next draw. */
  function CoreAt(ticks: Ticks, k: nat, sex: Sex, age: Age, race: Race, was: CharInfo): (CharInfo, nat) {
    hide ChoicesAt, InRange, Candidates, Face;
    ChoicesLegal(ticks, k, sex, age, race);
    var drawn := ChoicesAt(ticks, k, sex, age, race);
    (Face(drawn.0, sex, race, was), drawn.1)
  }

  /** The beard: a man who is no child has one in two of ten cases. */
  method DrawBeard(clock: Clock, sex: Sex, age: Age, hairColor: nat) returns (beard: Beard)
    modifies clock
    ensures (beard, clock.now) == BeardAt(clock.ticks, old(clock.now), sex, age, hairColor)
  {
    beard := Beard(0, 0, 0, 0, 0);
    var r := 10;
    if sex.Male? && (age.Adult? || age.Elder?) {
      r := clock.GetRandU32(10);
    }
    if r < 2 {
      var mustache, kind := 0, 0;
      r := clock.GetRandU32(3);
      if r == 0 {
        kind := clock.GetRandU32(3);
        kind := kind + 1;
      } else if r == 1 {
        mustache := clock.GetRandU32(3);
        mustache := mustache + 1;
      } else if r == 2 {
        mustache := clock.GetRandU32(3);
        kind := clock.GetRandU32(3);
        mustache, kind := mustache + 1, kind + 1;
      }
      beard := Beard(mustache, kind, hairColor, 4, 10);
    }
  }

  /** How far the parts of the face move down. */
  method DrawShift(clock: Clock, sex: Sex, age: Age) returns (y: nat)
    modifies clock
    ensures y == ShiftAt(clock.ticks, old(clock.now), sex, age)
    ensures clock.now == old(clock.now) + WomanDraws(sex) + ChildDraws(age)
  {
    y := 0;
    if sex.Female? {
      var r := clock.GetRandU32(3);
      y := y + r;
    }
    if age.Child? {
      var r := clock.GetRandU32(3);
      y := y + r;
    }
  }

  /** One of the candidates for a part. */
  method DrawPart(clock: Clock, part: Part, sex: Sex, age: Age, race: Race) returns (r: nat)
    modifies clock
    ensures r == PartAt(clock.ticks, old(clock.now), part, sex, age, race) && clock.now == old(clock.now) + 1
  {
    hide Row, Limit, Rand;
    var picked := clock.Pick(Row(part, sex, age, race));
    r := picked;
  }

  /** The parts, and whether the hair is flipped. */
  method DrawParts(clock: Clock, sex: Sex, age: Age, race: Race) returns (parts: Parts, flip: nat)
    modifies clock
    ensures parts == PartsAt(clock.ticks, old(clock.now), sex, age, race)
    ensures flip == Rand(clock.ticks, old(clock.now) + 5, 2) && clock.now == old(clock.now) + 11
  {
    hide PartAt, Rand, Row, Limit;
    var face := DrawPart(clock, FacelineType, sex, age, race);
    var faceColor := DrawPart(clock, FaceColor, sex, age, race);
    var texture := DrawPart(clock, FaceTexture, sex, age, race);
    var hair := DrawPart(clock, HairType, sex, age, race);
    var hairColor := DrawPart(clock, HairColor, sex, age, race);
    flip := clock.GetRandU32(2);
    var eye := DrawPart(clock, EyeType, sex, age, race);
    var eyeColor := DrawPart(clock, EyeColor, sex, age, race);
    var brow := DrawPart(clock, EyebrowType, sex, age, race);
    var nose := DrawPart(clock, NoseType, sex, age, race);
    var mouth := DrawPart(clock, MouthType, sex, age, race);
    parts := Parts(face, faceColor, texture, hair, hairColor, eye, eyeColor, brow, nose, mouth);
  }

  /** The choices, in the order in which the generator draws them. */
  method DrawChoices(clock: Clock, sex: Sex, age: Age, race: Race) returns (c: Choices)
    requires !sex.AnySex?
    modifies clock
    ensures (c, clock.now) == ChoicesAt(clock.ticks, old(clock.now), sex, age, race)
  {
    hide Rand, PartsAt, BeardAt, ShiftAt, GlassType;
    var y := DrawShift(clock, sex, age);
    var parts, flip := DrawParts(clock, sex, age, race);
    var mouthColor := 0;
    if !sex.Male? { mouthColor := clock.GetRandU32(3); }
    var beard := DrawBeard(clock, sex, age, parts.hairColor);
    var glass := clock.GetRandU32(100);
    var moleX := clock.GetRandU32(17);
    var moleY := clock.GetRandU32(31);
    var favorite := clock.GetRandU32(12);
    c := Choices(y, parts, flip, mouthColor, beard, GlassType(age, glass), moleX, moleY, favorite);
  }

  /** `RFLi_MakeRandomFace_Core`, for a definite sex, age and race; `was` is what the
      memory of the face held. */
  method MakeRandomFaceCore(clock: Clock, sex: Sex, age: Age, race: Race, was: CharInfo) returns (info: CharInfo)
    requires !sex.AnySex? && !age.AnyAge? && !race.AnyRace?
    modifies clock
    ensures (info, clock.now) == CoreAt(clock.ticks, old(clock.now), sex, age, race, was)
  {
    hide ChoicesAt, Face, InRange, Candidates;
    ghost var k := clock.now;
    var c := DrawChoices(clock, sex, age, race);
    ChoicesLegal(clock.ticks, k, sex, age, race);
    info := Face(c, sex, race, was);
  }

  /** A definite sex, age and race, drawn where it is left open, and the next draw. */
  function SexAt(ticks: Ticks, k: nat, sex: Sex): (Sex, nat) {
    if !sex.AnySex? then (sex, k) else (if Rand(ticks, k, 2) == 0 then Male else Female, k + 1)
  }

  function AgeAt(ticks: Ticks, k: nat, age: Age): (Age, nat) {
    if !age.AnyAge? then (age, k)
    else (if Rand(ticks, k, 10) < 4 then Child else if Rand(ticks, k, 10) < 8 then Adult else Elder, k + 1)
  }

  function RaceAt(ticks: Ticks, k: nat, race: Race): (Race, nat) {
    if !race.AnyRace? then (race, k)
    else (if Rand(ticks, k, 10) < 4 then Asian else if Rand(ticks, k, 10) < 8 then White else Black, k + 1)
  }

  /** The face that draw number k starts, and the number of the next draw. */
  function FaceAt(ticks: Ticks, k: nat, sex: Sex, age: Age, race: Race, was: CharInfo): (CharInfo, nat) {
    var s := SexAt(ticks, k, sex);
    var a := AgeAt(ticks, s.1, age);
    var r := RaceAt(ticks, a.1, race);
    CoreAt(ticks, r.1, s.0, a.0, r.0, was)
  }

  lemma Temporary(i: CharInfo)
    ensures WithTemporaryID(i).createID == CreateID(0x2000_0000, 0)
  {
  }

  lemma SameWithTemporaryID(i: CharInfo, p: Parts, sex: Sex)
    requires PartsFit(p) && Shows(i, p, sex) && Terminated(i)
    ensures Shows(WithTemporaryID(i), p, sex) && Terminated(WithTemporaryID(i))
  {
    hide Get, Get32;
  }

  /** The face i shows candidates for the sex, age and race asked for. */
  ghost predicate FaceFor(i: CharInfo, sex: Sex, age: Age, race: Race) {
    exists p, sex', age', race' ::
      && PartsFit(p) && Candidates(p, sex', age', race') && Shows(i, p, sex')
      && !sex'.AnySex? && !age'.AnyAge? && !race'.AnyRace?
      && (sex.AnySex? || sex' == sex) && (age.AnyAge? || age' == age) && (race.AnyRace? || race' == race)
  }

  /** Whatever the ticks, the face generated is valid with the temporary identifier; it is
      of the sex asked for, and its parts are candidates for the sex, age and race. */
  lemma GeneratedFace(ticks: Ticks, k: nat, sex: Sex, age: Age, race: Race, was: CharInfo)
    ensures var i := WithTemporaryID(FaceAt(ticks, k, sex, age, race, was).0);
            i.createID == CreateID(0x2000_0000, 0) && Terminated(i) && CheckValidInfo(i) && FaceFor(i, sex, age, race)
  {
    hide ChoicesAt, Face, Candidates, PartsFit, BeardFits, Shows, CheckValidInfo, Terminated, WithTemporaryID, Rand;
    var s := SexAt(ticks, k, sex);
    var a := AgeAt(ticks, s.1, age);
    var r := RaceAt(ticks, a.1, race);
    var c := ChoicesAt(ticks, r.1, s.0, a.0, r.0).0;
    ChoicesLegal(ticks, r.1, s.0, a.0, r.0);
    FaceShows(c, s.0, r.0, was);
    FaceIsValid(c, s.0, r.0, was);
    SameWithTemporaryID(Face(c, s.0, r.0, was), c.parts, s.0);
    Temporary(FaceAt(ticks, k, sex, age, race, was).0);
    assert Shows(WithTemporaryID(FaceAt(ticks, k, sex, age, race, was).0), c.parts, s.0);
  }

  lemma DrawnSex(ticks: Ticks, k: nat, sex: Sex)
    ensures !SexAt(ticks, k, sex).0.AnySex?
    ensures SexAt(ticks, k, sex).0.Female? <==> sex.Female? || (sex.AnySex? && ticks(k) % 2 == 1)
  {
  }

  lemma SexBit(i: CharInfo, sex: Sex, color: bv16, h: HiddenCharData)
    requires PersonalHas(i.personal, sex, color) && !sex.AnySex?
    ensures ShowsSex(i, h, sex.Female?)
  {
    HiddenStored(WithTemporaryID(i), h);
    hide Info2HRaw;
  }

  lemma CoreOfSex(ticks: Ticks, k: nat, sex: Sex, age: Age, race: Race, was: CharInfo, h: HiddenCharData)
    requires !sex.AnySex?
    ensures var i := CoreAt(ticks, k, sex, age, race, was).0; ShowsSex(i, h, sex.Female?)
  {
    hide ChoicesAt, Face, Candidates, PartsFit, BeardFits, PersonalHas, ShowsSex;
    var c := ChoicesAt(ticks, k, sex, age, race).0;
    ChoicesLegal(ticks, k, sex, age, race);
    BodyOfFace(c, sex, race, was);
    SexBit(Face(c, sex, race, was), sex, c.favorite as bv16, h);
  }

  /** An info and its stored form have the bit of a woman, or both have not. */
  predicate ShowsSex(i: CharInfo, h: HiddenCharData, woman: bool) {
    var bit := if woman then 1 else 0;
    (i.personal >> 15) & 1 == bit && (Info2HRaw(WithTemporaryID(i), h).stored.personal >> 14) & 1 == bit
  }

  /** The face, and its stored form, show a woman exactly when one was asked for, or nothing
      was and the first tick is odd. */
  lemma FaceOfSex(ticks: Ticks, k: nat, sex: Sex, age: Age, race: Race, was: CharInfo, h: HiddenCharData)
    ensures var woman := sex.Female? || (sex.AnySex? && ticks(k) % 2 == 1);
      ShowsSex(FaceAt(ticks, k, sex, age, race, was).0, h, woman)
  {
    hide CoreAt, Rand, ShowsSex;
    var s := SexAt(ticks, k, sex);
    var a := AgeAt(ticks, s.1, age);
    var r := RaceAt(ticks, a.1, race);
    CoreOfSex(ticks, r.1, s.0, a.0, r.0, was, h);
    DrawnSex(ticks, k, sex);
    hide SexAt, AgeAt, RaceAt;
  }

  /** `RFLi_MakeRandomFace`: undecided choices are drawn first. */
  method MakeRandomFace(clock: Clock, sex: Sex, age: Age, race: Race, was: CharInfo) returns (info: CharInfo)
    modifies clock
    ensures (info, clock.now) == FaceAt(clock.ticks, old(clock.now), sex, age, race, was)
  {
    hide CoreAt, Rand;
    var sex', age', race' := sex, age, race;
    if sex.AnySex? {
      var rand := clock.GetRandU32(2);
      sex' := if rand == 0 then Male else Female;
    }
    if age.AnyAge? {
      var rand := clock.GetRandU32(10);
      age' := if rand < 4 then Child else if rand < 8 then Adult else Elder;
    }
    if race.AnyRace? {
      var rand := clock.GetRandU32(10);
      race' := if rand < 4 then Asian else if rand < 8 then White else Black;
    }
    info := MakeRandomFaceCore(clock, sex', age', race', was);
  }
}
