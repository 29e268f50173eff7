/**
 The face records: the stored forms `RFLiCharData` and `RFLiHiddenCharData`, the form
 `RFLiCharInfo` that the library works on, and the conversions between them.

 A record is the packed words of its C structure; a bit-field is a range of bits of one
 of them, counted from the most significant end as the PowerPC compiler lays them out.
 An assignment to a bit-field leaves the other bits of its word alone, so every
 conversion takes the contents that its destination had before.
 */
module Records {
  import opened CreateIds
  import opened Words

  type Name = s: seq<u16> | |s| == 10 witness seq(10, _ => 0)
  type NameZ = s: seq<u16> | |s| == 11 witness seq(11, _ => 0)

  /** The part that the two stored forms share, in memory order (bytes 0 to 0x35). */
  datatype Stored = Stored(
    personal: bv16,  // 1 padding, sex 1, birthMonth 4, birthDay 5, favoriteColor 4, favorite 1
    name: Name, height: u8, build: u8, createID: CreateID,
    face: bv16,      // faceType 3, faceColor 3, faceTex 4, 3 padding, localonly 1, type 2
    hair: bv16,      // hairType 7, hairColor 3, hairFlip 1, 5 padding
    eyebrow0: bv16,  // eyebrowType 5, eyebrowRotate 5, 6 padding
    eyebrow1: bv16,  // eyebrowColor 3, eyebrowScale 4, eyebrowY 5, eyebrowX 4
    eye0: bv16,      // eyeType 6, eyeRotate 5, eyeY 5
    eye1: bv16,      // eyeColor 3, eyeScale 4, eyeX 4, 5 padding
    nose: bv16,      // noseType 4, noseScale 4, noseY 5, 3 padding
    mouth: bv16,     // mouthType 5, mouthColor 2, mouthScale 4, mouthY 5
    glass: bv16,     // glassType 4, glassColor 3, glassScale 4, glassY 5
    beard: bv16,     // mustacheType 2, beardType 2, beardColor 3, beardScale 4, beardY 5
    mole: bv16)      // moleType 1, moleScale 4, moleY 5, moleX 5, 1 padding

  /** `RFLiCharData`. */
  datatype CharData = CharData(stored: Stored, creatorName: Name)

  /** `RFLiHiddenCharData`; nine bits of padding replace the birthday. */
  datatype HiddenCharData = HiddenCharData(stored: Stored, padding9: seq<u16>)

  /** `RFLiCharInfo`. */
  datatype CharInfo = CharInfo(
    faceline: bv16,  // type 3, color 3, texture 4, 6 padding
    hair: bv16,      // type 7, color 3, flip 1, 5 padding
    eye: bv32,       // type 6, color 3, scale 4, rotate 5, x 4, y 5, 5 padding
    eyebrow: bv32,   // type 5, color 3, scale 4, rotate 5, x 4, y 5, 6 padding
    nose: bv16,      // type 4, scale 4, y 5, 3 padding
    mouth: bv16,     // type 5, color 2, scale 4, y 5
    beard: bv16,     // mustache 2, type 2, color 3, scale 4, y 5
    glass: bv16,     // type 4, color 3, scale 4, y 5
    mole: bv16,      // type 1, scale 4, x 5, y 5, 1 padding
    height: u8, build: u8, name: NameZ, creator: NameZ,
    personal: bv16,  // sex 1, bmonth 4, bday 5, color 4, favorite 1, localOnly 1
    createID: CreateID)

  // ---------------------------------------------------------------- bit-fields

  /** The field of `w` whose lowest bit is bit `lo`; `mask` is its largest value. */
  function Get(w: bv16, lo: bv16, mask: bv16): bv16
    requires lo <= 16
  {
    (w >> lo) & mask
  }

  function Put(w: bv16, lo: bv16, mask: bv16, v: bv16): bv16
    requires lo <= 16
  {
    (w & !(mask << lo)) | ((v & mask) << lo)
  }

  /** The bits of `w` selected by `mask`. */
  function Keep(w: bv16, mask: bv16): bv16 {
    w & mask
  }

  function Keep32(w: bv32, mask: bv32): bv32 {
    w & mask
  }

  function Get32(w: bv32, lo: bv32, mask: bv32): (v: bv16)
    requires lo <= 32 && mask <= 0x7F
    ensures v <= 0x7F
  {
    ((w >> lo) & mask) as bv16
  }

  function Put32(w: bv32, lo: bv32, mask: bv32, v: bv16): bv32
    requires lo <= 32
  {
    (w & !(mask << lo)) | (((v as bv32) & mask) << lo)
  }

  predicate IsFemale(d: HiddenCharData) {
    Get(d.stored.personal, 14, 1) == 1
  }

  // ---------------------------------------------------------------- reading a stored record, word by word

  function FacelineOf(face: bv16, was: bv16): bv16 {
    Put(Put(Put(was, 13, 7, Get(face, 13, 7)), 10, 7, Get(face, 10, 7)), 6, 15, Get(face, 6, 15))
  }

  function HairOf(hair: bv16, was: bv16): bv16 {
    Put(Put(Put(was, 9, 0x7F, Get(hair, 9, 0x7F)), 6, 7, Get(hair, 6, 7)), 5, 1, Get(hair, 5, 1))
  }

  function EyeOf(eye0: bv16, eye1: bv16, was: bv32): bv32 {
    Put32(Put32(Put32(Put32(Put32(Put32(was, 26, 0x3F, Get(eye0, 10, 0x3F)), 23, 7, Get(eye1, 13, 7)),
        19, 15, Get(eye1, 9, 15)), 14, 0x1F, Get(eye0, 5, 0x1F)), 10, 15, Get(eye1, 5, 15)),
        5, 0x1F, Get(eye0, 0, 0x1F))
  }

  function EyebrowOf(eyebrow0: bv16, eyebrow1: bv16, was: bv32): bv32 {
    Put32(Put32(Put32(Put32(Put32(Put32(was, 27, 0x1F, Get(eyebrow0, 11, 0x1F)), 24, 7, Get(eyebrow1, 13, 7)),
        20, 15, Get(eyebrow1, 9, 15)), 15, 0x1F, Get(eyebrow0, 6, 0x1F)), 11, 15, Get(eyebrow1, 0, 15)),
        6, 0x1F, Get(eyebrow1, 4, 0x1F))
  }

  function NoseOf(nose: bv16, was: bv16): bv16 {
    Put(Put(Put(was, 12, 15, Get(nose, 12, 15)), 8, 15, Get(nose, 8, 15)), 3, 0x1F, Get(nose, 3, 0x1F))
  }

  function MouthOf(mouth: bv16, was: bv16): bv16 {
    Put(Put(Put(Put(was, 11, 0x1F, Get(mouth, 11, 0x1F)), 9, 3, Get(mouth, 9, 3)), 5, 15, Get(mouth, 5, 15)),
        0, 0x1F, Get(mouth, 0, 0x1F))
  }

  function BeardOf(beard: bv16, was: bv16): bv16 {
    Put(Put(Put(Put(Put(was, 14, 3, Get(beard, 14, 3)), 12, 3, Get(beard, 12, 3)), 9, 7, Get(beard, 9, 7)),
        5, 15, Get(beard, 5, 15)), 0, 0x1F, Get(beard, 0, 0x1F))
  }

  function GlassOf(glass: bv16, was: bv16): bv16 {
    Put(Put(Put(Put(was, 12, 15, Get(glass, 12, 15)), 9, 7, Get(glass, 9, 7)), 5, 15, Get(glass, 5, 15)),
        0, 0x1F, Get(glass, 0, 0x1F))
  }

  function MoleOf(mole: bv16, was: bv16): bv16 {
    Put(Put(Put(Put(was, 15, 1, Get(mole, 15, 1)), 11, 15, Get(mole, 11, 15)), 6, 0x1F, Get(mole, 1, 0x1F)),
        1, 0x1F, Get(mole, 6, 0x1F))
  }

  function PersonalOf(personal: bv16, face: bv16, was: bv16): bv16 {
    Put(Put(Put(Put(Put(Put(was, 15, 1, Get(personal, 14, 1)), 11, 15, Get(personal, 10, 15)),
        6, 0x1F, Get(personal, 5, 0x1F)), 2, 15, Get(personal, 1, 15)), 1, 1, Get(personal, 0, 1)),
        0, 1, Get(face, 2, 1))
  }

  /** `convertRaw2InfoCore_`. */
  function Raw2InfoCore(d: Stored, was: CharInfo): CharInfo {
    CharInfo(FacelineOf(d.face, was.faceline), HairOf(d.hair, was.hair), EyeOf(d.eye0, d.eye1, was.eye),
             EyebrowOf(d.eyebrow0, d.eyebrow1, was.eyebrow), NoseOf(d.nose, was.nose),
             MouthOf(d.mouth, was.mouth), BeardOf(d.beard, was.beard), GlassOf(d.glass, was.glass),
             MoleOf(d.mole, was.mole), d.height, d.build, d.name + [0], was.creator,
             PersonalOf(d.personal, d.face, was.personal), d.createID)
  }

  /** `RFLiConvertRaw2Info`. */
  function Raw2Info(d: CharData, was: CharInfo): CharInfo {
    Raw2InfoCore(d.stored, was).(creator := d.creatorName + [0])
  }

  function WithoutBirthday(i: CharInfo): CharInfo {
    i.(personal := Put(Put(i.personal, 11, 15, 0), 6, 0x1F, 0))
  }

  /** `RFLiConvertHRaw2Info`: no creator, no birthday. */
  function HRaw2Info(d: HiddenCharData, was: CharInfo): CharInfo {
    WithoutBirthday(Raw2InfoCore(d.stored, was).(creator := [0, 0, 0, 0, 0, 0, 0, 0, 0, 0, 0]))
  }

  // ---------------------------------------------------------------- writing a stored record, word by word

  function FaceFrom(faceline: bv16, personal: bv16, was: bv16): bv16 {
    Put(Put(Put(Put(was, 13, 7, Get(faceline, 13, 7)), 10, 7, Get(faceline, 10, 7)), 6, 15, Get(faceline, 6, 15)),
        2, 1, Get(personal, 0, 1))
  }

  function HairFrom(hair: bv16, was: bv16): bv16 {
    Put(Put(Put(was, 9, 0x7F, Get(hair, 9, 0x7F)), 6, 7, Get(hair, 6, 7)), 5, 1, Get(hair, 5, 1))
  }

  function Eye0From(eye: bv32, was: bv16): bv16 {
    Put(Put(Put(was, 10, 0x3F, Get32(eye, 26, 0x3F)), 5, 0x1F, Get32(eye, 14, 0x1F)), 0, 0x1F, Get32(eye, 5, 0x1F))
  }

  function Eye1From(eye: bv32, was: bv16): bv16 {
    Put(Put(Put(was, 13, 7, Get32(eye, 23, 7)), 9, 15, Get32(eye, 19, 15)), 5, 15, Get32(eye, 10, 15))
  }

  function Eyebrow0From(eyebrow: bv32, was: bv16): bv16 {
    Put(Put(was, 11, 0x1F, Get32(eyebrow, 27, 0x1F)), 6, 0x1F, Get32(eyebrow, 15, 0x1F))
  }

  function Eyebrow1From(eyebrow: bv32, was: bv16): bv16 {
    Put(Put(Put(Put(was, 13, 7, Get32(eyebrow, 24, 7)), 9, 15, Get32(eyebrow, 20, 15)),
        0, 15, Get32(eyebrow, 11, 15)), 4, 0x1F, Get32(eyebrow, 6, 0x1F))
  }

  function MoleFrom(mole: bv16, was: bv16): bv16 {
    Put(Put(Put(Put(was, 15, 1, Get(mole, 15, 1)), 11, 15, Get(mole, 11, 15)), 1, 0x1F, Get(mole, 6, 0x1F)),
        6, 0x1F, Get(mole, 1, 0x1F))
  }

  function PersonalFrom(personal: bv16, was: bv16): bv16 {
    Put(Put(Put(Put(Put(was, 14, 1, Get(personal, 15, 1)), 10, 15, Get(personal, 11, 15)),
        5, 0x1F, Get(personal, 6, 0x1F)), 1, 15, Get(personal, 2, 15)), 0, 1, Get(personal, 1, 1))
  }

  /** `convertInfo2RawCore_`; the nose, mouth, beard and glass words have the same layout
      in both forms. */
  function Info2RawCore(i: CharInfo, was: Stored): Stored {
    Stored(PersonalFrom(i.personal, was.personal), i.name[..10], i.height, i.build, i.createID,
           FaceFrom(i.faceline, i.personal, was.face), HairFrom(i.hair, was.hair),
           Eyebrow0From(i.eyebrow, was.eyebrow0), Eyebrow1From(i.eyebrow, was.eyebrow1),
           Eye0From(i.eye, was.eye0), Eye1From(i.eye, was.eye1), NoseOf(i.nose, was.nose),
           MouthOf(i.mouth, was.mouth), GlassOf(i.glass, was.glass), BeardOf(i.beard, was.beard),
           MoleFrom(i.mole, was.mole))
  }

  /** `RFLiConvertInfo2Raw`. */
  function Info2Raw(i: CharInfo, was: CharData): CharData {
    CharData(Info2RawCore(i, was.stored), i.creator[..10])
  }

  /** The hidden form has padding where the birthday was. */
  function ClearBirthday(d: Stored): Stored {
    d.(personal := Put(d.personal, 5, 0x1FF, 0))
  }

  /** `RFLiConvertInfo2HRaw`. */
  function Info2HRaw(i: CharInfo, was: HiddenCharData): HiddenCharData {
    was.(stored := ClearBirthday(Info2RawCore(i, was.stored)))
  }

  /** `RFLiConvertRaw2HRaw`: the record without creator and birthday. */
  function Raw2HRaw(d: CharData): HiddenCharData {
    HiddenCharData(ClearBirthday(d.stored), [0, 0, 0, 0, 0])
  }

  // ---------------------------------------------------------------- the conversions commute

  /** The information in `i`, without padding bits. */
  function WithoutPadding(i: CharInfo): CharInfo {
    i.(faceline := Keep(i.faceline, 0xFFC0), hair := Keep(i.hair, 0xFFE0), eye := Keep32(i.eye, 0xFFFF_FFE0),
       eyebrow := Keep32(i.eyebrow, 0xFFFF_FFC0), nose := Keep(i.nose, 0xFFF8), mole := Keep(i.mole, 0xFFFE))
  }

  /** The names end with NUL, as the conversions leave them. */
  predicate Terminated(i: CharInfo) {
    i.name[10] == 0 && i.creator[10] == 0
  }

  lemma FaceWords(faceline: bv16, personal: bv16, raw: bv16, was: bv16)
    ensures Keep(FacelineOf(FaceFrom(faceline, personal, raw), was), 0xFFC0) == Keep(faceline, 0xFFC0)
  {
  }

  lemma EyeWords(eye: bv32, raw0: bv16, raw1: bv16, was: bv32)
    ensures Keep32(EyeOf(Eye0From(eye, raw0), Eye1From(eye, raw1), was), 0xFFFF_FFE0) == Keep32(eye, 0xFFFF_FFE0)
  {
  }

  lemma EyebrowWords(eyebrow: bv32, raw0: bv16, raw1: bv16, was: bv32)
    ensures Keep32(EyebrowOf(Eyebrow0From(eyebrow, raw0), Eyebrow1From(eyebrow, raw1), was), 0xFFFF_FFC0)
         == Keep32(eyebrow, 0xFFFF_FFC0)
  {
  }

  lemma HairWords(w: bv16, raw: bv16, was: bv16)
    ensures Keep(HairOf(HairFrom(w, raw), was), 0xFFE0) == Keep(w, 0xFFE0)
  {
  }

  lemma NoseWords(w: bv16, raw: bv16, was: bv16)
    ensures Keep(NoseOf(NoseOf(w, raw), was), 0xFFF8) == Keep(w, 0xFFF8)
  {
    NoseFields(w, raw);
    NoseFields(NoseOf(w, raw), was);
    hide NoseOf;
  }

  lemma NoseFields(w: bv16, was: bv16)
    ensures NoseOf(w, was) == Keep(w, 0xFFF8) | Keep(was, 7)
  {
  }

  lemma MouthWords(w: bv16, raw: bv16)
    ensures MouthOf(w, raw) == w
  {
  }

  lemma BeardWords(w: bv16, raw: bv16)
    ensures BeardOf(w, raw) == w
  {
  }

  lemma GlassWords(w: bv16, raw: bv16)
    ensures GlassOf(w, raw) == w
  {
  }

  lemma MoleWords(w: bv16, raw: bv16, was: bv16)
    ensures Keep(MoleOf(MoleFrom(w, raw), was), 0xFFFE) == Keep(w, 0xFFFE)
  {
  }

  lemma PersonalWords(personal: bv16, faceline: bv16, raw: bv16, face: bv16, was: bv16)
    ensures PersonalOf(PersonalFrom(personal, raw), FaceFrom(faceline, personal, face), was) == personal
  {
  }

  /** Storing an info and reading it back gives the info, up to padding. */
  lemma InfoRoundTrip(i: CharInfo, d: CharData, was: CharInfo)
    requires Terminated(i)
    ensures WithoutPadding(Raw2Info(Info2Raw(i, d), was)) == WithoutPadding(i)
  {
    CoreRoundTrip(i, d.stored, was);
    assert i.creator == i.creator[..10] + [0];
    hide Raw2InfoCore, Info2RawCore, Keep, Keep32;
  }

  lemma CoreRoundTrip(i: CharInfo, d: Stored, was: CharInfo)
    requires Terminated(i)
    ensures WithoutPadding(Raw2InfoCore(Info2RawCore(i, d), was)) == WithoutPadding(i).(creator := was.creator)
  {
    hide FacelineOf, FaceFrom, EyeOf, Eye0From, Eye1From, EyebrowOf, Eyebrow0From, Eyebrow1From, HairOf, HairFrom;
    hide NoseOf, MouthOf, BeardOf, GlassOf, MoleOf, MoleFrom, PersonalOf, PersonalFrom, Keep, Keep32;
    FaceWords(i.faceline, i.personal, d.face, was.faceline);
    EyeWords(i.eye, d.eye0, d.eye1, was.eye);
    EyebrowWords(i.eyebrow, d.eyebrow0, d.eyebrow1, was.eyebrow);
    HairWords(i.hair, d.hair, was.hair);
    NoseWords(i.nose, d.nose, was.nose);
    MouthWords(MouthOf(i.mouth, d.mouth), was.mouth);
    MouthWords(i.mouth, d.mouth);
    BeardWords(BeardOf(i.beard, d.beard), was.beard);
    BeardWords(i.beard, d.beard);
    GlassWords(GlassOf(i.glass, d.glass), was.glass);
    GlassWords(i.glass, d.glass);
    MoleWords(i.mole, d.mole, was.mole);
    PersonalWords(i.personal, i.faceline, d.personal, d.face, was.personal);
    assert i.name == i.name[..10] + [0];
  }

  /** The bits of a stored record that the library uses; `type` is not one of them. */
  function UsedBits(d: Stored): Stored {
    d.(personal := Keep(d.personal, 0x7FFF), face := Keep(d.face, 0xFFC4), hair := Keep(d.hair, 0xFFE0),
       eyebrow0 := Keep(d.eyebrow0, 0xFFC0), eye1 := Keep(d.eye1, 0xFFE0),
       nose := Keep(d.nose, 0xFFF8), mole := Keep(d.mole, 0xFFFE))
  }

  /** Reading a stored record and storing it again keeps every bit but `type` and padding. */
  lemma RawRoundTrip(d: CharData, i: CharInfo, was: CharData)
    ensures var again := Info2Raw(Raw2Info(d, i), was);
            UsedBits(again.stored) == UsedBits(d.stored) && again.creatorName == d.creatorName
  {
    var s, w := d.stored, was.stored;
    StoredEye(s.eye0, s.eye1, i.eye, w.eye0, w.eye1);
    StoredEyebrow(s.eyebrow0, s.eyebrow1, i.eyebrow, w.eyebrow0, w.eyebrow1);
    LocalOnlyWord(s.face, s.personal, i.personal);
    StoredFace(s.face, i.faceline, PersonalOf(s.personal, s.face, i.personal), w.face);
    StoredPersonal(s.face, s.personal, i.personal, w.personal);
    StoredHair(s.hair, i.hair, w.hair);
    StoredMole(s.mole, i.mole, w.mole);
    NoseWords(s.nose, i.nose, w.nose);
    MouthWords(MouthOf(s.mouth, i.mouth), w.mouth);
    MouthWords(s.mouth, i.mouth);
    BeardWords(BeardOf(s.beard, i.beard), w.beard);
    BeardWords(s.beard, i.beard);
    GlassWords(GlassOf(s.glass, i.glass), w.glass);
    GlassWords(s.glass, i.glass);
    assert (s.name + [0])[..10] == s.name && (d.creatorName + [0])[..10] == d.creatorName;
    hide FacelineOf, FaceFrom, EyeOf, Eye0From, Eye1From, EyebrowOf, Eyebrow0From, Eyebrow1From, HairOf, HairFrom;
    hide NoseOf, MouthOf, BeardOf, GlassOf, MoleOf, MoleFrom, PersonalOf, PersonalFrom, Keep, Keep32;
  }

  lemma StoredEye(eye0: bv16, eye1: bv16, was: bv32, raw0: bv16, raw1: bv16)
    ensures Eye0From(EyeOf(eye0, eye1, was), raw0) == eye0
    ensures Keep(Eye1From(EyeOf(eye0, eye1, was), raw1), 0xFFE0) == Keep(eye1, 0xFFE0)
  {
  }

  lemma StoredEyebrow(eyebrow0: bv16, eyebrow1: bv16, was: bv32, raw0: bv16, raw1: bv16)
    ensures Keep(Eyebrow0From(EyebrowOf(eyebrow0, eyebrow1, was), raw0), 0xFFC0) == Keep(eyebrow0, 0xFFC0)
    ensures Eyebrow1From(EyebrowOf(eyebrow0, eyebrow1, was), raw1) == eyebrow1
  {
  }

  lemma StoredFace(face: bv16, faceline: bv16, personal: bv16, raw: bv16)
    requires Get(personal, 0, 1) == Get(face, 2, 1)
    ensures Keep(FaceFrom(FacelineOf(face, faceline), personal, raw), 0xFFC4) == Keep(face, 0xFFC4)
  {
  }

  lemma LocalOnlyWord(face: bv16, personal: bv16, was: bv16)
    ensures Get(PersonalOf(personal, face, was), 0, 1) == Get(face, 2, 1)
  {
  }

  lemma StoredPersonal(face: bv16, personal: bv16, was: bv16, raw: bv16)
    ensures Keep(PersonalFrom(PersonalOf(personal, face, was), raw), 0x7FFF) == Keep(personal, 0x7FFF)
  {
  }

  lemma StoredHair(hair: bv16, was: bv16, raw: bv16)
    ensures Keep(HairFrom(HairOf(hair, was), raw), 0xFFE0) == Keep(hair, 0xFFE0)
  {
  }

  lemma StoredMole(mole: bv16, was: bv16, raw: bv16)
    ensures Keep(MoleFrom(MoleOf(mole, was), raw), 0xFFFE) == Keep(mole, 0xFFFE)
  {
  }

  /** A record seen through its hidden form is the record without birthday and creator. */
  lemma HiddenView(d: CharData, was: CharInfo)
    ensures HRaw2Info(Raw2HRaw(d), was) == WithoutBirthday(Raw2Info(d, was)).(creator := seq(11, _ => 0))
  {
    HiddenPersonal(d.stored.personal, d.stored.face, was.personal);
    assert seq(11, _ => 0) == [0, 0, 0, 0, 0, 0, 0, 0, 0, 0, 0];
    hide FacelineOf, EyeOf, EyebrowOf, HairOf, NoseOf, MouthOf, BeardOf, GlassOf, MoleOf, PersonalOf, Put;
  }

  lemma HiddenPersonal(personal: bv16, face: bv16, was: bv16)
    ensures Put(Put(PersonalOf(Put(personal, 5, 0x1FF, 0), face, was), 11, 15, 0), 6, 0x1F, 0)
         == Put(Put(PersonalOf(personal, face, was), 11, 15, 0), 6, 0x1F, 0)
  {
  }

  /** Storing an info in the hidden form and reading it back loses only birthday and creator. */
  lemma HiddenRoundTrip(i: CharInfo, h: HiddenCharData, was: CharInfo)
    requires Terminated(i)
    ensures WithoutPadding(HRaw2Info(Info2HRaw(i, h), was))
         == WithoutPadding(WithoutBirthday(i)).(creator := seq(11, _ => 0))
  {
    var d := CharData(Info2RawCore(i, h.stored), i.creator[..10]);
    HiddenView(d, was);
    HiddenPaddingIrrelevant(i, h, was);
    InfoRoundTrip(i, CharData(h.stored, i.creator[..10]), was);
    hide FacelineOf, FaceFrom, EyeOf, Eye0From, Eye1From, EyebrowOf, Eyebrow0From, Eyebrow1From, HairOf, HairFrom;
    hide NoseOf, MouthOf, BeardOf, GlassOf, MoleOf, MoleFrom, PersonalOf, PersonalFrom;
    hide Keep, Keep32, Put, Raw2InfoCore, Info2RawCore;
  }

  lemma HiddenPaddingIrrelevant(i: CharInfo, h: HiddenCharData, was: CharInfo)
    ensures HRaw2Info(Info2HRaw(i, h), was)
         == HRaw2Info(Raw2HRaw(CharData(Info2RawCore(i, h.stored), i.creator[..10])), was)
  {
  }

  // ---------------------------------------------------------------- validity

  /** `RFLiCheckBirthday`. */
  predicate CheckBirthday(month: bv16, day: bv16) {
    && (month == 0 <==> day == 0)
    && month <= 12 && day <= 31
    && (month == 2 ==> day <= 29)
    && (month == 4 || month == 6 || month == 9 || month == 11 ==> day <= 30)
  }

  predicate CheckFaceline(faceline: bv16) {
    Get(faceline, 13, 7) <= 7 && Get(faceline, 10, 7) <= 5 && Get(faceline, 6, 15) <= 11
  }

  predicate CheckHair(hair: bv16) {
    Get(hair, 9, 0x7F) <= 71 && Get(hair, 6, 7) <= 7 && Get(hair, 5, 1) <= 1
  }

  predicate CheckNose(nose: bv16) {
    Get(nose, 12, 15) <= 11 && Get(nose, 8, 15) <= 8 && Get(nose, 3, 0x1F) <= 18
  }

  predicate CheckMouth(mouth: bv16) {
    && Get(mouth, 11, 0x1F) <= 23 && Get(mouth, 9, 3) <= 2 && Get(mouth, 5, 15) <= 8
    && Get(mouth, 0, 0x1F) <= 18
  }

  predicate CheckEye(eye: bv32) {
    && Get32(eye, 26, 0x3F) <= 47 && Get32(eye, 23, 7) <= 5 && Get32(eye, 19, 15) <= 7
    && Get32(eye, 14, 0x1F) <= 7 && Get32(eye, 10, 15) <= 12 && Get32(eye, 5, 0x1F) <= 18
  }

  predicate CheckEyebrow(eyebrow: bv32) {
    && Get32(eyebrow, 27, 0x1F) <= 23 && Get32(eyebrow, 24, 7) <= 7 && Get32(eyebrow, 20, 15) <= 8
    && Get32(eyebrow, 15, 0x1F) <= 11 && Get32(eyebrow, 11, 15) <= 12 && 3 <= Get32(eyebrow, 6, 0x1F) <= 18
  }

  predicate CheckEyes(eye: bv32, eyebrow: bv32) {
    CheckEye(eye) && CheckEyebrow(eyebrow)
  }

  predicate CheckBeard(beard: bv16) {
    && Get(beard, 14, 3) <= 3 && Get(beard, 12, 3) <= 3 && Get(beard, 9, 7) <= 7
    && Get(beard, 5, 15) <= 8 && Get(beard, 0, 0x1F) <= 16
  }

  predicate CheckGlass(glass: bv16) {
    && Get(glass, 12, 15) <= 8 && Get(glass, 9, 7) <= 5 && Get(glass, 5, 15) <= 7
    && Get(glass, 0, 0x1F) <= 20
  }

  predicate CheckExtras(beard: bv16, glass: bv16) {
    CheckBeard(beard) && CheckGlass(glass)
  }

  predicate CheckMole(mole: bv16) {
    && Get(mole, 15, 1) <= 1 && Get(mole, 11, 15) <= 8 && Get(mole, 6, 0x1F) <= 16
    && Get(mole, 1, 0x1F) <= 30
  }

  predicate CheckPersonal(i: CharInfo) {
    && i.name[0] != 0 && i.height <= 128 && i.build <= 128
    && Get(i.personal, 15, 1) <= 1
    && CheckBirthday(Get(i.personal, 11, 15), Get(i.personal, 6, 0x1F))
    && Get(i.personal, 2, 15) < 12
    && !(IsSpecialID(i.createID) && Get(i.personal, 0, 1) == 0)
  }

  /** `RFLiCheckValidInfo`. */
  predicate CheckValidInfo(i: CharInfo) {
    && CheckFaceline(i.faceline) && CheckHair(i.hair) && CheckNose(i.nose) && CheckMouth(i.mouth)
    && CheckEyes(i.eye, i.eyebrow) && CheckExtras(i.beard, i.glass) && CheckMole(i.mole)
    && CheckPersonal(i)
  }

  /** `RFLiIsSameFaceCore`, with its masks: the one of the glasses drops a bit of `y`. */
  predicate IsSameFace(l: CharInfo, r: CharInfo) {
    && Keep32(l.eye, 0xFFFF_FFE0) == Keep32(r.eye, 0xFFFF_FFE0)
    && Keep32(l.eyebrow, 0xFFFF_FFC0) == Keep32(r.eyebrow, 0xFFFF_FFC0)
    && Keep(l.mouth, 0xFFFF) == Keep(r.mouth, 0xFFFF)
    && Keep(l.beard, 0xFFFF) == Keep(r.beard, 0xFFFF)
    && Keep(l.glass, 0xFFFE) == Keep(r.glass, 0xFFFE)
    && Keep(l.mole, 0xFFFE) == Keep(r.mole, 0xFFFE)
    && Keep(l.nose, 0xFFF8) == Keep(r.nose, 0xFFF8)
    && Keep(l.hair, 0xFFE0) == Keep(r.hair, 0xFFE0)
    && Keep(l.faceline, 0xFFC0) == Keep(r.faceline, 0xFFC0)
  }

  lemma FacelineKept(w: bv16)
    ensures Get(Keep(w, 0xFFC0), 13, 7) == Get(w, 13, 7)
    ensures Get(Keep(w, 0xFFC0), 10, 7) == Get(w, 10, 7)
    ensures Get(Keep(w, 0xFFC0), 6, 15) == Get(w, 6, 15)
  {
  }

  lemma HairKept(w: bv16)
    ensures Get(Keep(w, 0xFFE0), 9, 0x7F) == Get(w, 9, 0x7F)
    ensures Get(Keep(w, 0xFFE0), 6, 7) == Get(w, 6, 7)
    ensures Get(Keep(w, 0xFFE0), 5, 1) == Get(w, 5, 1)
  {
  }

  lemma NoseKept(w: bv16)
    ensures Get(Keep(w, 0xFFF8), 12, 15) == Get(w, 12, 15)
    ensures Get(Keep(w, 0xFFF8), 8, 15) == Get(w, 8, 15)
    ensures Get(Keep(w, 0xFFF8), 3, 0x1F) == Get(w, 3, 0x1F)
  {
  }

  lemma EyeKept(w: bv32)
    ensures Get32(Keep32(w, 0xFFFF_FFE0), 26, 0x3F) == Get32(w, 26, 0x3F)
    ensures Get32(Keep32(w, 0xFFFF_FFE0), 23, 7) == Get32(w, 23, 7)
    ensures Get32(Keep32(w, 0xFFFF_FFE0), 19, 15) == Get32(w, 19, 15)
    ensures Get32(Keep32(w, 0xFFFF_FFE0), 14, 0x1F) == Get32(w, 14, 0x1F)
    ensures Get32(Keep32(w, 0xFFFF_FFE0), 10, 15) == Get32(w, 10, 15)
    ensures Get32(Keep32(w, 0xFFFF_FFE0), 5, 0x1F) == Get32(w, 5, 0x1F)
  {
  }

  lemma EyebrowKept(w: bv32)
    ensures Get32(Keep32(w, 0xFFFF_FFC0), 27, 0x1F) == Get32(w, 27, 0x1F)
    ensures Get32(Keep32(w, 0xFFFF_FFC0), 24, 7) == Get32(w, 24, 7)
    ensures Get32(Keep32(w, 0xFFFF_FFC0), 20, 15) == Get32(w, 20, 15)
    ensures Get32(Keep32(w, 0xFFFF_FFC0), 15, 0x1F) == Get32(w, 15, 0x1F)
    ensures Get32(Keep32(w, 0xFFFF_FFC0), 11, 15) == Get32(w, 11, 15)
    ensures Get32(Keep32(w, 0xFFFF_FFC0), 6, 0x1F) == Get32(w, 6, 0x1F)
  {
  }

  lemma MoleKept(w: bv16)
    ensures Get(Keep(w, 0xFFFE), 15, 1) == Get(w, 15, 1)
    ensures Get(Keep(w, 0xFFFE), 11, 15) == Get(w, 11, 15)
  {
  }

  lemma MolePlaceKept(w: bv16)
    ensures Get(Keep(w, 0xFFFE), 6, 0x1F) == Get(w, 6, 0x1F)
    ensures Get(Keep(w, 0xFFFE), 1, 0x1F) == Get(w, 1, 0x1F)
  {
  }

  lemma PaddingIrrelevantFaceline(faceline: bv16)
    ensures CheckFaceline(Keep(faceline, 0xFFC0)) == CheckFaceline(faceline)
  {
    FacelineKept(faceline);
    hide Keep, Get;
  }

  lemma PaddingIrrelevantHair(hair: bv16)
    ensures CheckHair(Keep(hair, 0xFFE0)) == CheckHair(hair)
  {
    HairKept(hair);
    hide Keep, Get;
  }

  lemma PaddingIrrelevantNose(nose: bv16)
    ensures CheckNose(Keep(nose, 0xFFF8)) == CheckNose(nose)
  {
    NoseKept(nose);
    hide Keep, Get;
  }

  lemma PaddingIrrelevantEyes(eye: bv32, eyebrow: bv32)
    ensures CheckEyes(Keep32(eye, 0xFFFF_FFE0), Keep32(eyebrow, 0xFFFF_FFC0)) == CheckEyes(eye, eyebrow)
  {
    EyeKept(eye);
    EyebrowKept(eyebrow);
    hide Keep32, Get32;
  }

  lemma PaddingIrrelevantMole(mole: bv16)
    ensures CheckMole(Keep(mole, 0xFFFE)) == CheckMole(mole)
  {
    MoleKept(mole);
    MolePlaceKept(mole);
    hide Keep, Get;
  }

  lemma NoBirthdayIsValid(i: CharInfo)
    requires CheckPersonal(i)
    ensures CheckPersonal(WithoutBirthday(i))
  {
  }

  /** Validity does not look at padding. */
  lemma PaddingIrrelevant(i: CharInfo)
    ensures CheckValidInfo(WithoutPadding(i)) == CheckValidInfo(i)
  {
    PaddingIrrelevantFaceline(i.faceline);
    PaddingIrrelevantHair(i.hair);
    PaddingIrrelevantNose(i.nose);
    PaddingIrrelevantEyes(i.eye, i.eyebrow);
    PaddingIrrelevantMole(i.mole);
    hide CheckFaceline, CheckHair, CheckNose, CheckMouth, CheckEyes, CheckExtras, CheckMole;
    hide Keep, Keep32, Get, CheckBirthday, IsSpecialID;
  }

  /** A valid info stays valid, and the same face, when it goes through the hidden form. */
  lemma HiddenKeepsFace(i: CharInfo, h: HiddenCharData, was: CharInfo)
    requires Terminated(i)
    ensures var again := HRaw2Info(Info2HRaw(i, h), was);
            IsSameFace(again, i) && (CheckValidInfo(i) ==> CheckValidInfo(again))
  {
    var again := HRaw2Info(Info2HRaw(i, h), was);
    HiddenRoundTrip(i, h, was);
    SamePadded(again, i);
    PaddingIrrelevant(again);
    PaddingIrrelevant(WithoutBirthday(i));
    if CheckValidInfo(i) { NoBirthdayIsValid(i); CreatorIrrelevant(WithoutPadding(WithoutBirthday(i))); }
    hide HRaw2Info, Info2HRaw, Keep, Keep32, Get, Get32, Put, IsSpecialID, IsSameFace;
    hide CheckPersonal, CheckFaceline, CheckHair, CheckNose, CheckMouth, CheckEyes, CheckExtras, CheckMole;
  }

  lemma SamePadded(again: CharInfo, i: CharInfo)
    requires WithoutPadding(again) == WithoutPadding(WithoutBirthday(i)).(creator := seq(11, _ => 0))
    ensures IsSameFace(again, i)
  {
    hide Put, Keep, Keep32;
  }

  lemma CreatorIrrelevant(a: CharInfo)
    ensures CheckValidInfo(a.(creator := seq(11, _ => 0))) == CheckValidInfo(a)
  {
    hide CheckFaceline, CheckHair, CheckNose, CheckMouth, CheckEyes, CheckExtras, CheckMole;
    hide Get, CheckBirthday, IsSpecialID;
  }

  // ---------------------------------------------------------------- reading into uninitialised memory

  function ZeroStored(): Stored {
    Stored(0, [0, 0, 0, 0, 0, 0, 0, 0, 0, 0], 0, 0, NO_ID, 0, 0, 0, 0, 0, 0, 0, 0, 0, 0, 0)
  }

  /** Records as `memset` to zero leaves them. */
  function ZeroChar(): CharData {
    CharData(ZeroStored(), [0, 0, 0, 0, 0, 0, 0, 0, 0, 0])
  }

  function ZeroHidden(): HiddenCharData {
    HiddenCharData(ZeroStored(), [0, 0, 0, 0, 0])
  }

  function ZeroInfo(): CharInfo {
    CharInfo(0, 0, 0, 0, 0, 0, 0, 0, 0, 0, 0, 
             [0, 0, 0, 0, 0, 0, 0, 0, 0, 0, 0], [0, 0, 0, 0, 0, 0, 0, 0, 0, 0, 0], 0, NO_ID)
  }

  predicate ValidChar(d: CharData) {
    CheckValidInfo(Raw2Info(d, ZeroInfo()))
  }

  predicate ValidHidden(d: HiddenCharData) {
    CheckValidInfo(HRaw2Info(d, ZeroInfo()))
  }

  lemma FaceRead(face: bv16, was: bv16)
    ensures Get(FacelineOf(face, was), 13, 7) == Get(face, 13, 7)
    ensures Get(FacelineOf(face, was), 10, 7) == Get(face, 10, 7)
    ensures Get(FacelineOf(face, was), 6, 15) == Get(face, 6, 15)
  {
  }

  lemma HairRead(hair: bv16, was: bv16)
    ensures Get(HairOf(hair, was), 9, 0x7F) == Get(hair, 9, 0x7F)
    ensures Get(HairOf(hair, was), 6, 7) == Get(hair, 6, 7)
    ensures Get(HairOf(hair, was), 5, 1) == Get(hair, 5, 1)
  {
  }

  lemma NoseRead(nose: bv16, was: bv16)
    ensures Get(NoseOf(nose, was), 12, 15) == Get(nose, 12, 15)
    ensures Get(NoseOf(nose, was), 8, 15) == Get(nose, 8, 15)
    ensures Get(NoseOf(nose, was), 3, 0x1F) == Get(nose, 3, 0x1F)
  {
  }

  lemma MoleRead(mole: bv16, was: bv16)
    ensures Get(MoleOf(mole, was), 15, 1) == Get(mole, 15, 1)
    ensures Get(MoleOf(mole, was), 11, 15) == Get(mole, 11, 15)
    ensures Get(MoleOf(mole, was), 6, 0x1F) == Get(mole, 1, 0x1F)
    ensures Get(MoleOf(mole, was), 1, 0x1F) == Get(mole, 6, 0x1F)
  {
  }

  lemma EyeRead(eye0: bv16, eye1: bv16, was: bv32)
    ensures Get32(EyeOf(eye0, eye1, was), 26, 0x3F) == Get(eye0, 10, 0x3F)
    ensures Get32(EyeOf(eye0, eye1, was), 23, 7) == Get(eye1, 13, 7)
    ensures Get32(EyeOf(eye0, eye1, was), 19, 15) == Get(eye1, 9, 15)
    ensures Get32(EyeOf(eye0, eye1, was), 14, 0x1F) == Get(eye0, 5, 0x1F)
    ensures Get32(EyeOf(eye0, eye1, was), 10, 15) == Get(eye1, 5, 15)
    ensures Get32(EyeOf(eye0, eye1, was), 5, 0x1F) == Get(eye0, 0, 0x1F)
  {
  }

  lemma EyebrowRead(eyebrow0: bv16, eyebrow1: bv16, was: bv32)
    ensures Get32(EyebrowOf(eyebrow0, eyebrow1, was), 27, 0x1F) == Get(eyebrow0, 11, 0x1F)
    ensures Get32(EyebrowOf(eyebrow0, eyebrow1, was), 24, 7) == Get(eyebrow1, 13, 7)
    ensures Get32(EyebrowOf(eyebrow0, eyebrow1, was), 20, 15) == Get(eyebrow1, 9, 15)
    ensures Get32(EyebrowOf(eyebrow0, eyebrow1, was), 15, 0x1F) == Get(eyebrow0, 6, 0x1F)
    ensures Get32(EyebrowOf(eyebrow0, eyebrow1, was), 11, 15) == Get(eyebrow1, 0, 15)
    ensures Get32(EyebrowOf(eyebrow0, eyebrow1, was), 6, 0x1F) == Get(eyebrow1, 4, 0x1F)
  {
  }

  lemma PersonalRead(personal: bv16, face: bv16, was: bv16)
    ensures Get(PersonalOf(personal, face, was), 15, 1) == Get(personal, 14, 1)
    ensures Get(PersonalOf(personal, face, was), 11, 15) == Get(personal, 10, 15)
    ensures Get(PersonalOf(personal, face, was), 6, 0x1F) == Get(personal, 5, 0x1F)
    ensures Get(PersonalOf(personal, face, was), 2, 15) == Get(personal, 1, 15)
    ensures Get(PersonalOf(personal, face, was), 1, 1) == Get(personal, 0, 1)
    ensures Get(PersonalOf(personal, face, was), 0, 1) == Get(face, 2, 1)
  {
  }

  lemma FacelineBlind(face: bv16, was: bv16, was': bv16)
    ensures CheckFaceline(FacelineOf(face, was)) == CheckFaceline(FacelineOf(face, was'))
  {
    FaceRead(face, was);
    FaceRead(face, was');
    hide FacelineOf, Get;
  }

  lemma HairBlind(hair: bv16, was: bv16, was': bv16)
    ensures CheckHair(HairOf(hair, was)) == CheckHair(HairOf(hair, was'))
  {
    hide HairOf, Get;
    HairRead(hair, was);
    HairRead(hair, was');
  }

  lemma NoseBlind(nose: bv16, was: bv16, was': bv16)
    ensures CheckNose(NoseOf(nose, was)) == CheckNose(NoseOf(nose, was'))
  {
    NoseRead(nose, was);
    NoseRead(nose, was');
    hide NoseOf, Get;
  }

  lemma EyesBlind(d: Stored, eye: bv32, eyebrow: bv32, eye': bv32, eyebrow': bv32)
    ensures CheckEyes(EyeOf(d.eye0, d.eye1, eye), EyebrowOf(d.eyebrow0, d.eyebrow1, eyebrow))
         == CheckEyes(EyeOf(d.eye0, d.eye1, eye'), EyebrowOf(d.eyebrow0, d.eyebrow1, eyebrow'))
  {
    EyeRead(d.eye0, d.eye1, eye);
    EyeRead(d.eye0, d.eye1, eye');
    EyebrowRead(d.eyebrow0, d.eyebrow1, eyebrow);
    EyebrowRead(d.eyebrow0, d.eyebrow1, eyebrow');
    hide EyeOf, EyebrowOf, Get, Get32;
  }

  lemma MoleBlind(mole: bv16, was: bv16, was': bv16)
    ensures CheckMole(MoleOf(mole, was)) == CheckMole(MoleOf(mole, was'))
  {
    MoleRead(mole, was);
    MoleRead(mole, was');
    hide MoleOf, Get;
  }

  lemma WordsBlind(d: Stored, was: CharInfo, was': CharInfo)
    ensures CheckFaceline(FacelineOf(d.face, was.faceline)) == CheckFaceline(FacelineOf(d.face, was'.faceline))
    ensures CheckHair(HairOf(d.hair, was.hair)) == CheckHair(HairOf(d.hair, was'.hair))
    ensures CheckNose(NoseOf(d.nose, was.nose)) == CheckNose(NoseOf(d.nose, was'.nose))
    ensures CheckMole(MoleOf(d.mole, was.mole)) == CheckMole(MoleOf(d.mole, was'.mole))
    ensures CheckEyes(EyeOf(d.eye0, d.eye1, was.eye), EyebrowOf(d.eyebrow0, d.eyebrow1, was.eyebrow))
         == CheckEyes(EyeOf(d.eye0, d.eye1, was'.eye), EyebrowOf(d.eyebrow0, d.eyebrow1, was'.eyebrow))
    ensures MouthOf(d.mouth, was.mouth) == MouthOf(d.mouth, was'.mouth)
    ensures BeardOf(d.beard, was.beard) == BeardOf(d.beard, was'.beard)
    ensures GlassOf(d.glass, was.glass) == GlassOf(d.glass, was'.glass)
  {
    FacelineBlind(d.face, was.faceline, was'.faceline);
    HairBlind(d.hair, was.hair, was'.hair);
    NoseBlind(d.nose, was.nose, was'.nose);
    MoleBlind(d.mole, was.mole, was'.mole);
    EyesBlind(d, was.eye, was.eyebrow, was'.eye, was'.eyebrow);
    MouthWords(d.mouth, was.mouth);
    MouthWords(d.mouth, was'.mouth);
    BeardWords(d.beard, was.beard);
    BeardWords(d.beard, was'.beard);
    GlassWords(d.glass, was.glass);
    GlassWords(d.glass, was'.glass);
    hide FacelineOf, EyeOf, EyebrowOf, HairOf, NoseOf, MouthOf, BeardOf, GlassOf, MoleOf;
    hide CheckFaceline, CheckHair, CheckNose, CheckMouth, CheckEyes, CheckExtras, CheckMole;
  }

  lemma PersonalBlind(d: Stored, was: CharInfo, was': CharInfo)
    ensures CheckPersonal(Raw2InfoCore(d, was)) == CheckPersonal(Raw2InfoCore(d, was'))
  {
    PersonalRead(d.personal, d.face, was.personal);
    PersonalRead(d.personal, d.face, was'.personal);
    hide FacelineOf, EyeOf, EyebrowOf, HairOf, NoseOf, MouthOf, BeardOf, GlassOf, MoleOf, PersonalOf;
    hide Put, Put32, Get, Get32, CheckBirthday, IsSpecialID;
  }

  lemma BirthdayFields(personal: bv16)
    ensures var p := Put(Put(personal, 11, 15, 0), 6, 0x1F, 0);
            && Get(p, 15, 1) == Get(personal, 15, 1) && Get(p, 11, 15) == 0 && Get(p, 6, 0x1F) == 0
            && Get(p, 2, 15) == Get(personal, 2, 15) && Get(p, 0, 1) == Get(personal, 0, 1)
  {
  }

  lemma HiddenPersonalBlind(d: Stored, was: CharInfo, was': CharInfo)
    ensures CheckPersonal(WithoutBirthday(Raw2InfoCore(d, was)))
         == CheckPersonal(WithoutBirthday(Raw2InfoCore(d, was')))
  {
    PersonalRead(d.personal, d.face, was.personal);
    PersonalRead(d.personal, d.face, was'.personal);
    BirthdayFields(PersonalOf(d.personal, d.face, was.personal));
    BirthdayFields(PersonalOf(d.personal, d.face, was'.personal));
    hide FacelineOf, EyeOf, EyebrowOf, HairOf, NoseOf, MouthOf, BeardOf, GlassOf, MoleOf, PersonalOf;
    hide Put, Put32, Get, Get32, CheckBirthday, IsSpecialID;
  }

  /** Validity of a record does not depend on the memory it is unpacked into. */
  lemma ValidityBlind(d: CharData, h: HiddenCharData, was: CharInfo)
    ensures CheckValidInfo(Raw2Info(d, was)) == ValidChar(d)
    ensures CheckValidInfo(HRaw2Info(h, was)) == ValidHidden(h)
  {
    WordsBlind(d.stored, was, ZeroInfo());
    WordsBlind(h.stored, was, ZeroInfo());
    PersonalBlind(d.stored, was, ZeroInfo());
    HiddenPersonalBlind(h.stored, was, ZeroInfo());
    hide FacelineOf, EyeOf, EyebrowOf, HairOf, NoseOf, MouthOf, BeardOf, GlassOf, MoleOf, PersonalOf;
    hide CheckFaceline, CheckHair, CheckNose, CheckMouth, CheckEyes, CheckExtras, CheckMole;
    hide Put, Get, CheckBirthday, IsSpecialID;
  }

  // ---------------------------------------------------------------- the fields by their bits

  /** Every part of a stored record is read into its own place, whatever was there. */
  lemma ReadInPlace(d: CharData, was: CharInfo)
    ensures var i, s := Raw2Info(d, was), d.stored;
      && i.name == s.name + [0] && i.creator == d.creatorName + [0] && i.height == s.height && i.build == s.build
      && i.createID == s.createID && i.mouth == s.mouth && i.beard == s.beard && i.glass == s.glass
      && (i.faceline >> 13) & 7 == (s.face >> 13) & 7 && (i.faceline >> 10) & 7 == (s.face >> 10) & 7
      && (i.faceline >> 6) & 15 == (s.face >> 6) & 15
      && (i.hair >> 9) & 0x7F == (s.hair >> 9) & 0x7F && (i.hair >> 6) & 7 == (s.hair >> 6) & 7
      && (i.hair >> 5) & 1 == (s.hair >> 5) & 1
      && (i.nose >> 12) & 15 == (s.nose >> 12) & 15 && (i.nose >> 8) & 15 == (s.nose >> 8) & 15
      && (i.nose >> 3) & 0x1F == (s.nose >> 3) & 0x1F
      && (i.mole >> 15) & 1 == (s.mole >> 15) & 1 && (i.mole >> 11) & 15 == (s.mole >> 11) & 15
      && (i.mole >> 6) & 0x1F == (s.mole >> 1) & 0x1F && (i.mole >> 1) & 0x1F == (s.mole >> 6) & 0x1F
  {
    var s := d.stored;
    FaceRead(s.face, was.faceline);
    HairRead(s.hair, was.hair);
    NoseRead(s.nose, was.nose);
    MoleRead(s.mole, was.mole);
    MouthWords(s.mouth, was.mouth);
    BeardWords(s.beard, was.beard);
    GlassWords(s.glass, was.glass);
    hide FacelineOf, EyeOf, EyebrowOf, HairOf, NoseOf, MouthOf, BeardOf, GlassOf, MoleOf, PersonalOf;
  }

  lemma EyesReadInPlace(d: CharData, was: CharInfo)
    ensures var i, s := Raw2Info(d, was), d.stored;
      && ((i.eye >> 26) & 0x3F) as bv16 == (s.eye0 >> 10) & 0x3F && ((i.eye >> 23) & 7) as bv16 == (s.eye1 >> 13) & 7
      && ((i.eye >> 19) & 15) as bv16 == (s.eye1 >> 9) & 15 && ((i.eye >> 14) & 0x1F) as bv16 == (s.eye0 >> 5) & 0x1F
      && ((i.eye >> 10) & 15) as bv16 == (s.eye1 >> 5) & 15 && ((i.eye >> 5) & 0x1F) as bv16 == s.eye0 & 0x1F
      && ((i.eyebrow >> 27) & 0x1F) as bv16 == (s.eyebrow0 >> 11) & 0x1F
      && ((i.eyebrow >> 24) & 7) as bv16 == (s.eyebrow1 >> 13) & 7
      && ((i.eyebrow >> 20) & 15) as bv16 == (s.eyebrow1 >> 9) & 15
      && ((i.eyebrow >> 15) & 0x1F) as bv16 == (s.eyebrow0 >> 6) & 0x1F
      && ((i.eyebrow >> 11) & 15) as bv16 == s.eyebrow1 & 15
      && ((i.eyebrow >> 6) & 0x1F) as bv16 == (s.eyebrow1 >> 4) & 0x1F
  {
    var s := d.stored;
    EyeRead(s.eye0, s.eye1, was.eye);
    EyebrowRead(s.eyebrow0, s.eyebrow1, was.eyebrow);
    hide FacelineOf, EyeOf, EyebrowOf, HairOf, NoseOf, MouthOf, BeardOf, GlassOf, MoleOf, PersonalOf;
  }

  lemma PersonalReadInPlace(d: CharData, was: CharInfo)
    ensures var i, s := Raw2Info(d, was), d.stored;
      && (i.personal >> 15) & 1 == (s.personal >> 14) & 1 && (i.personal >> 11) & 15 == (s.personal >> 10) & 15
      && (i.personal >> 6) & 0x1F == (s.personal >> 5) & 0x1F && (i.personal >> 2) & 15 == (s.personal >> 1) & 15
      && (i.personal >> 1) & 1 == s.personal & 1 && i.personal & 1 == (s.face >> 2) & 1
  {
    PersonalRead(d.stored.personal, d.stored.face, was.personal);
    hide FacelineOf, EyeOf, EyebrowOf, HairOf, NoseOf, MouthOf, BeardOf, GlassOf, MoleOf, PersonalOf;
  }

  /** And an info is stored so: the words are pinned by the round trip. */
  lemma StoredInPlace(i: CharInfo, was: CharData)
    ensures var d := Info2Raw(i, was);
      && d.stored.name == i.name[..10] && d.creatorName == i.creator[..10]
      && d.stored.height == i.height && d.stored.build == i.build && d.stored.createID == i.createID
      && d.stored.mouth == i.mouth && d.stored.beard == i.beard && d.stored.glass == i.glass
      && (d.stored.personal >> 14) & 1 == (i.personal >> 15) & 1
  {
    MouthWords(i.mouth, was.stored.mouth);
    BeardWords(i.beard, was.stored.beard);
    GlassWords(i.glass, was.stored.glass);
    SexStored(i.personal, was.stored.personal);
    hide FaceFrom, HairFrom, Eye0From, Eye1From, Eyebrow0From, Eyebrow1From, MoleFrom, PersonalFrom;
    hide NoseOf, MouthOf, BeardOf, GlassOf;
  }

  lemma SexStored(personal: bv16, was: bv16)
    ensures (PersonalFrom(personal, was) >> 14) & 1 == (personal >> 15) & 1
  {
  }

  /** The hidden form of an info has its sex and shows no birthday. */
  lemma HiddenStored(i: CharInfo, was: HiddenCharData)
    ensures var h := Info2HRaw(i, was);
      && h.stored.name == i.name[..10] && h.stored.height == i.height && h.stored.build == i.build
      && h.stored.createID == i.createID && (h.stored.personal >> 14) & 1 == (i.personal >> 15) & 1
      && (h.stored.personal >> 5) & 0x1FF == 0
  {
    StoredInPlace(i, CharData(was.stored, i.creator[..10]));
    BirthdayCleared(PersonalFrom(i.personal, was.stored.personal));
    hide FaceFrom, HairFrom, Eye0From, Eye1From, Eyebrow0From, Eyebrow1From, MoleFrom, PersonalFrom, Put;
    hide NoseOf, MouthOf, BeardOf, GlassOf;
  }

  lemma BirthdayCleared(personal: bv16)
    ensures var p := Put(personal, 5, 0x1FF, 0);
      (p >> 14) & 1 == (personal >> 14) & 1 && (p >> 5) & 0x1FF == 0 && p & 0x1F == personal & 0x1F
  {
  }

  /** A birthday is unknown, or a day of its month in some year. */
  lemma BirthdayExactly(month: bv16, day: bv16)
    ensures CheckBirthday(month, day) <==>
      || (month == 0 && day == 0)
      || (1 <= month <= 12 &&
          1 <= day <= if month == 2 then 29
                      else if month == 4 || month == 6 || month == 9 || month == 11 then 30 else 31)
  {
  }

  lemma EyeExactly(eye: bv32)
    ensures CheckEye(eye) <==>
      && ((eye >> 26) & 0x3F) as bv16 < 48 && ((eye >> 23) & 7) as bv16 < 6 && ((eye >> 19) & 15) as bv16 < 8
      && ((eye >> 14) & 0x1F) as bv16 < 8 && ((eye >> 10) & 15) as bv16 <= 12
      && ((eye >> 5) & 0x1F) as bv16 <= 18
  {
  }

  lemma EyebrowExactly(eyebrow: bv32)
    ensures CheckEyebrow(eyebrow) <==>
      && ((eyebrow >> 27) & 0x1F) as bv16 < 24 && ((eyebrow >> 24) & 7) as bv16 < 8
      && ((eyebrow >> 20) & 15) as bv16 <= 8 && ((eyebrow >> 15) & 0x1F) as bv16 < 12
      && ((eyebrow >> 11) & 15) as bv16 <= 12
      && 3 <= ((eyebrow >> 6) & 0x1F) as bv16 <= 18
  {
  }

  lemma WordsExactly(i: CharInfo)
    ensures CheckFaceline(i.faceline) <==> (i.faceline >> 10) & 7 <= 5 && (i.faceline >> 6) & 15 <= 11
    ensures CheckHair(i.hair) <==> (i.hair >> 9) & 0x7F <= 71
    ensures CheckNose(i.nose) <==>
      (i.nose >> 12) & 15 <= 11 && (i.nose >> 8) & 15 <= 8 && (i.nose >> 3) & 0x1F <= 18
    ensures CheckMouth(i.mouth) <==>
      (i.mouth >> 11) & 0x1F <= 23 && (i.mouth >> 9) & 3 <= 2 && (i.mouth >> 5) & 15 <= 8 && i.mouth & 0x1F <= 18
    ensures CheckMole(i.mole) <==>
      (i.mole >> 11) & 15 <= 8 && (i.mole >> 6) & 0x1F <= 16 && (i.mole >> 1) & 0x1F <= 30
  {
  }

  lemma ExtrasExactly(beard: bv16, glass: bv16)
    ensures CheckBeard(beard) <==> (beard >> 5) & 15 <= 8 && beard & 0x1F <= 16
    ensures CheckGlass(glass) <==>
      (glass >> 12) & 15 <= 8 && (glass >> 9) & 7 <= 5 && (glass >> 5) & 15 <= 7 && glass & 0x1F <= 20
  {
  }

  lemma PersonalExactly(i: CharInfo)
    ensures CheckPersonal(i) <==>
      && i.name[0] != 0 && i.height <= 128 && i.build <= 128 && (i.personal >> 2) & 15 <= 11
      && CheckBirthday((i.personal >> 11) & 15, (i.personal >> 6) & 0x1F)
      && (IsSpecialID(i.createID) ==> i.personal & 1 == 1)
  {
    hide CheckBirthday, IsSpecialID;
    OneBitOrNone(i.personal);
    PersonalBits(i.personal);
    hide Get;
  }

  lemma PersonalBits(p: bv16)
    ensures Get(p, 15, 1) == (p >> 15) & 1 && Get(p, 0, 1) == p & 1 && Get(p, 2, 15) == (p >> 2) & 15
    ensures Get(p, 11, 15) == (p >> 11) & 15 && Get(p, 6, 0x1F) == (p >> 6) & 0x1F
  {
  }

  /** What is asked of a valid info besides the words of the face: a name, a body within its
      limits, a possible birthday, a color, and that only a record that stays on its console
      has a special identifier. */
  lemma ValidExactly(i: CharInfo)
    ensures CheckValidInfo(i) <==>
      && CheckFaceline(i.faceline) && CheckHair(i.hair) && CheckNose(i.nose) && CheckMouth(i.mouth)
      && CheckEyes(i.eye, i.eyebrow) && CheckExtras(i.beard, i.glass) && CheckMole(i.mole)
      && i.name[0] != 0 && i.height <= 128 && i.build <= 128 && (i.personal >> 2) & 15 <= 11
      && CheckBirthday((i.personal >> 11) & 15, (i.personal >> 6) & 0x1F)
      && (IsSpecialID(i.createID) ==> i.personal & 1 == 1)
  {
    PersonalExactly(i);
    hide CheckFaceline, CheckHair, CheckNose, CheckMouth, CheckEyes, CheckExtras, CheckMole, CheckPersonal;
    hide CheckBirthday, IsSpecialID;
  }

  lemma OneBitOrNone(w: bv16)
    ensures (w >> 15) & 1 <= 1 && (w & 1 == 0 || w & 1 == 1) && (w >> 0) & 1 == w & 1
    ensures (w >> 2) & 15 < 12 <==> (w >> 2) & 15 <= 11
  {
  }
}
