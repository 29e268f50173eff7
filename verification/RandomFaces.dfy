/**
 Filling a view with random faces that all look different.

 The results hold whatever the clock feeds the generator; the loop of the code ends only
 when enough different faces have come.
 */
module RandomFaces {
  import opened FaceGenerator
  import opened Records

  /** The face that a stored record shows, unpacked into memory that held `was`. */
  function Shown(h: HiddenCharData, was: CharInfo): CharInfo {
    HRaw2Info(h, was)
  }

  /** Record h stores the face i. */
  ghost predicate Stores(h: HiddenCharData, i: CharInfo) {
    Terminated(i) && exists was :: h == Info2HRaw(i, was)
  }

  lemma StoredFaceShown(h: HiddenCharData, i: CharInfo, was: CharInfo)
    requires Stores(h, i)
    ensures IsSameFace(Shown(h, was), i)
    ensures CheckValidInfo(i) ==> CheckValidInfo(Shown(h, was))
  {
    hide IsSameFace, CheckValidInfo;
    var before :| h == Info2HRaw(i, before);
    HiddenKeepsFace(i, before, was);
  }

  lemma SameFaceJoins(a: CharInfo, b: CharInfo, c: CharInfo)
    requires IsSameFace(a, b)
    ensures IsSameFace(a, c) == IsSameFace(b, c)
    ensures IsSameFace(c, a) == IsSameFace(c, b)
  {
    hide Keep, Keep32;
  }

  lemma SameFaceSymmetric(a: CharInfo, b: CharInfo)
    ensures IsSameFace(a, b) == IsSameFace(b, a)
  {
    hide Keep, Keep32;
  }

  /** No two of these faces are the same. */
  predicate AllDifferent(faces: seq<CharInfo>) {
    forall j, k :: 0 <= j < k < |faces| ==> !IsSameFace(faces[j], faces[k])
  }

  predicate Seen(faces: seq<CharInfo>, f: CharInfo) {
    exists j :: 0 <= j < |faces| && IsSameFace(faces[j], f)
  }

  /** The face after k rounds from draw number n on, and the number of the next draw. */
  function RoundAt(ticks: Ticks, n: nat, sex: Sex, age: Age, race: Race, stack: CharInfo, k: nat): (CharInfo, nat) {
    hide FaceAt, WithTemporaryID;
    if k == 0 then (stack, n)
    else
      var before := RoundAt(ticks, n, sex, age, race, stack, k - 1);
      var made := FaceAt(ticks, before.1, sex, age, race, before.0);
      (WithTemporaryID(made.0), made.1)
  }

  /** The faces generated from draw number n on, one a round. */
  function FacesFrom(ticks: Ticks, n: nat, sex: Sex, age: Age, race: Race, stack: CharInfo): nat -> CharInfo {
    hide RoundAt;
    (j: nat) => RoundAt(ticks, n, sex, age, race, stack, j + 1).0
  }

  function Prefix(faces: nat -> CharInfo, k: nat): (first: seq<CharInfo>)
    ensures |first| == k && forall j :: 0 <= j < k ==> first[j] == faces(j)
  {
    seq(k, (j: nat) => faces(j))
  }

  /** These faces without those that look like an earlier one. */
  function FirstOfEach(faces: seq<CharInfo>): seq<CharInfo> {
    if |faces| == 0 then []
    else
      var last := |faces| - 1;
      var before := FirstOfEach(faces[..last]);
      before + if Seen(before, faces[last]) then [] else [faces[last]]
  }

  /** What k rounds leave for a view of this size: the first face of each look. The view
      was not full before the last round. */
  ghost predicate Outcome(faces: nat -> CharInfo, k: nat, size: nat, shown: seq<CharInfo>) {
    && shown == FirstOfEach(Prefix(faces, k))
    && forall j: nat :: j < k ==> |FirstOfEach(Prefix(faces, j))| < size
  }

  /** Nothing is invented and no look is lost: each face is one of those given, no two look
      the same, and every one given looks like one of them. */
  lemma {:induction false} FirstOfEachSees(faces: seq<CharInfo>)
    ensures AllDifferent(FirstOfEach(faces))
    ensures forall f :: f in FirstOfEach(faces) ==> f in faces
    ensures forall f :: f in faces ==> Seen(FirstOfEach(faces), f)
  {
    hide IsSameFace;
    if |faces| > 0 {
      var last := |faces| - 1;
      var before := FirstOfEach(faces[..last]);
      FirstOfEachSees(faces[..last]);
      OfferedIsSeen(before, FirstOfEach(faces), faces[last]);
      SeenStays(before, FirstOfEach(faces), faces[..last]);
      assert faces == faces[..last] + [faces[last]];
    }
  }

  lemma NoRounds(faces: nat -> CharInfo, size: nat)
    ensures Outcome(faces, 0, size, []) && AllDifferent([])
  {
    hide IsSameFace, Seen;
  }

  lemma NextRound(faces: nat -> CharInfo, k: nat, size: nat, shown: seq<CharInfo>)
    requires Outcome(faces, k, size, shown) && |shown| < size
    ensures Outcome(faces, k + 1, size, shown + if Seen(shown, faces(k)) then [] else [faces(k)])
  {
    hide IsSameFace, Seen;
    var more := Prefix(faces, k + 1);
    assert more[..k] == Prefix(faces, k) && more[k] == faces(k);
    assert FirstOfEach(more) == shown + if Seen(shown, faces(k)) then [] else [faces(k)];
  }

  lemma FirstRound(ticks: Ticks, n: nat, sex: Sex, age: Age, race: Race, stack: CharInfo)
    ensures RoundAt(ticks, n, sex, age, race, stack, 0) == (stack, n)
  {
  }

  lemma RoundIsFace(ticks: Ticks, n: nat, sex: Sex, age: Age, race: Race, stack: CharInfo, k: nat)
    ensures var before := RoundAt(ticks, n, sex, age, race, stack, k);
            var made := FaceAt(ticks, before.1, sex, age, race, before.0);
            && RoundAt(ticks, n, sex, age, race, stack, k + 1) == (WithTemporaryID(made.0), made.1)
            && FacesFrom(ticks, n, sex, age, race, stack)(k) == WithTemporaryID(made.0)
  {
    hide FaceAt, WithTemporaryID;
  }

  /** `RFLiMiddleDB` of type Random. */
  class MiddleDB {
    const data: array<HiddenCharData>
    var storedSize: nat
    ghost var shown: seq<CharInfo>

    /** The first entries store faces that are all different. */
    ghost predicate Valid()
      reads this, data
    {
      && |shown| == storedSize <= data.Length
      && (forall j :: 0 <= j < storedSize ==> Stores(data[j], shown[j]))
      && AllDifferent(shown)
    }

    constructor (data: array<HiddenCharData>)
      ensures Valid() && this.data == data && storedSize == 0
    {
      this.data, storedSize, shown := data, 0, [];
    }

    /** The view shows the first face of each look among the first k. */
    ghost predicate ShowsFirstOf(faces: nat -> CharInfo, k: nat)
      reads this
    {
      hide *;
      Outcome(faces, k, data.Length, shown)
    }

    /** The inner loop of `updateRandom_`: is the face among the stored ones? */
    method IsKnown(info: CharInfo, stack: CharInfo) returns (isSame: bool)
      requires Valid()
      ensures isSame == Seen(shown, info)
    {
      hide IsSameFace, HRaw2Info, Info2HRaw, AllDifferent, Terminated;
      isSame := false;
      var j := 0;
      while j < storedSize
        invariant 0 <= j <= storedSize
        invariant forall k :: 0 <= k < j ==> !IsSameFace(shown[k], info)
      {
        var temp := Shown(data[j], stack);
        StoredFaceShown(data[j], shown[j], stack);
        SameFaceJoins(temp, shown[j], info);
        SameFaceSymmetric(info, shown[j]);
        if IsSameFace(info, temp) {
          isSame := true;
          return;
        }
        j := j + 1;
      }
    }

    /** The end of a round: a face that is not among the stored ones is stored. */
    method Offer(info: CharInfo, stack: CharInfo)
      requires Valid() && storedSize < data.Length && Terminated(info)
      modifies this, data
      ensures Valid() && shown == old(shown) + if Seen(old(shown), info) then [] else [info]
      ensures forall j :: 0 <= j < old(storedSize) ==> data[j] == old(data[j])
    {
      hide IsSameFace, HRaw2Info, Info2HRaw, Terminated;
      var isSame := IsKnown(info, stack);
      if !isSame {
        data[storedSize] := Info2HRaw(info, data[storedSize]);
        storedSize := storedSize + 1;
        shown := shown + [info];
      }
    }

    /** One round of `updateRandom_`: generate a face and store it if its look is new. */
    method Round(clock: Clock, sex: Sex, age: Age, race: Race, was: CharInfo, stack: CharInfo)
      returns (info: CharInfo)
      requires Valid() && storedSize < data.Length
      modifies this, data, clock
      ensures Valid() && shown == old(shown) + if Seen(old(shown), info) then [] else [info]
      ensures info == WithTemporaryID(FaceAt(clock.ticks, old(clock.now), sex, age, race, was).0)
      ensures clock.now == FaceAt(clock.ticks, old(clock.now), sex, age, race, was).1
    {
      hide IsSameFace, AllDifferent, Terminated, Stores, WithTemporaryID, CheckValidInfo, FaceAt, FaceFor, Seen;
      GeneratedFace(clock.ticks, clock.now, sex, age, race, was);
      info := MakeRandomFace(clock, sex, age, race, was);
      info := WithTemporaryID(info);
      Offer(info, stack);
    }

    /** `updateRandom_`, after at most the given number of rounds: the loop of the code goes
        on until the view is full. The faces come from the ticks of the clock alone; the
        view shows the first of each look, and stops at the round that fills it. */
    method UpdateRandom(clock: Clock, sex: Sex, age: Age, race: Race, rounds: nat, stack: CharInfo)
      returns (full: bool, k: nat)
      modifies this, data, clock
      ensures Valid() && (full <==> storedSize == data.Length) && k <= rounds && (!full ==> k == rounds)
      ensures ShowsFirstOf(FacesFrom(clock.ticks, old(clock.now), sex, age, race, stack), k)
    {
      hide IsSameFace, AllDifferent, Stores, WithTemporaryID, FaceAt, Seen, RoundAt, Outcome, FacesFrom;
      ghost var ticks, start := clock.ticks, clock.now;
      ghost var faces := FacesFrom(ticks, start, sex, age, race, stack);
      storedSize, shown, k := 0, [], 0;
      NoRounds(faces, data.Length);
      FirstRound(ticks, start, sex, age, race, stack);
      var info := stack;
      while storedSize < data.Length && k < rounds
        invariant Valid() && k <= rounds
        invariant (info, clock.now) == RoundAt(ticks, start, sex, age, race, stack, k)
        invariant Outcome(faces, k, data.Length, shown)
        decreases rounds - k
      {
        NextRound(faces, k, data.Length, shown);
        RoundIsFace(ticks, start, sex, age, race, stack, k);
        info := Round(clock, sex, age, race, info, stack);
        k := k + 1;
      }
      full := storedSize >= data.Length;
    }
  }

  /** Whatever the ticks, the faces shown are valid, of the kind asked for, and no two look
      the same; every face generated looks like one of them. */
  lemma ShownValid(ticks: Ticks, n: nat, sex: Sex, age: Age, race: Race, stack: CharInfo, k: nat, size: nat,
                   shown: seq<CharInfo>)
    requires Outcome(FacesFrom(ticks, n, sex, age, race, stack), k, size, shown)
    ensures AllDifferent(shown) && forall f :: f in shown ==> CheckValidInfo(f) && FaceFor(f, sex, age, race)
    ensures forall j: nat :: j < k ==> Seen(shown, FacesFrom(ticks, n, sex, age, race, stack)(j))
  {
    hide CheckValidInfo, FaceFor, Seen, AllDifferent, RoundAt, FaceAt, WithTemporaryID, Terminated, FirstOfEach;
    var faces := FacesFrom(ticks, n, sex, age, race, stack);
    FirstOfEachSees(Prefix(faces, k));
    forall f | f in shown ensures CheckValidInfo(f) && FaceFor(f, sex, age, race) {
      var j: nat :| j < k && Prefix(faces, k)[j] == f;
      var before := RoundAt(ticks, n, sex, age, race, stack, j);
      RoundIsFace(ticks, n, sex, age, race, stack, j);
      GeneratedFace(ticks, before.1, sex, age, race, before.0);
    }
    forall j: nat | j < k ensures Seen(shown, faces(j)) {
      assert Prefix(faces, k)[j] == faces(j);
    }
  }

  lemma OfferedIsSeen(before: seq<CharInfo>, now: seq<CharInfo>, f: CharInfo)
    requires now == before + if Seen(before, f) then [] else [f]
    ensures Seen(now, f)
  {
    hide IsSameFace;
    if Seen(before, f) {
      var j :| 0 <= j < |before| && IsSameFace(before[j], f);
      assert now[j] == before[j];
    } else {
      SameFaceAsItself(f);
      assert now[|before|] == f;
    }
  }

  lemma SeenStays(before: seq<CharInfo>, now: seq<CharInfo>, offered: seq<CharInfo>)
    requires before <= now && forall f :: f in offered ==> Seen(before, f)
    ensures forall f :: f in offered ==> Seen(now, f)
  {
    hide IsSameFace;
    forall f | f in offered ensures Seen(now, f) {
      var j :| 0 <= j < |before| && IsSameFace(before[j], f);
      assert now[j] == before[j];
    }
  }

  lemma SameFaceAsItself(a: CharInfo)
    ensures IsSameFace(a, a)
  {
    hide Keep, Keep32;
  }

  /** What a reader of the view gets: faces that are pairwise different, and valid when the
      generator made them so, whatever the memory they are unpacked into held. */
  lemma ShownFaces(data: seq<HiddenCharData>, shown: seq<CharInfo>, j: nat, k: nat, was: CharInfo, was': CharInfo)
    requires |shown| <= |data| && AllDifferent(shown) && j < k < |shown|
    requires forall m :: 0 <= m < |shown| ==> Stores(data[m], shown[m])
    ensures !IsSameFace(Shown(data[j], was), Shown(data[k], was'))
    ensures CheckValidInfo(shown[j]) ==> CheckValidInfo(Shown(data[j], was))
  {
    hide IsSameFace, CheckValidInfo, Shown, Stores;
    StoredFaceShown(data[j], shown[j], was);
    StoredFaceShown(data[k], shown[k], was');
    SameFaceJoins(Shown(data[j], was), shown[j], Shown(data[k], was'));
    SameFaceJoins(Shown(data[k], was'), shown[k], shown[j]);
  }

  /** The nine words of the two faces agree but for their padding; the glasses have none. */
  predicate SameUpToPadding(l: CharInfo, r: CharInfo) {
    && Keep32(l.eye, 0xFFFF_FFE0) == Keep32(r.eye, 0xFFFF_FFE0)
    && Keep32(l.eyebrow, 0xFFFF_FFC0) == Keep32(r.eyebrow, 0xFFFF_FFC0)
    && l.mouth == r.mouth && l.beard == r.beard && l.glass == r.glass
    && Keep(l.mole, 0xFFFE) == Keep(r.mole, 0xFFFE)
    && Keep(l.nose, 0xFFF8) == Keep(r.nose, 0xFFF8)
    && Keep(l.hair, 0xFFE0) == Keep(r.hair, 0xFFE0)
    && Keep(l.faceline, 0xFFC0) == Keep(r.faceline, 0xFFC0)
  }

  /** The comparison is right except on faces that differ in the lowest bit of the
      glasses' height and in nothing else. */
  lemma SameFaceExactly(l: CharInfo, r: CharInfo)
    ensures (IsSameFace(l, r) <==> SameUpToPadding(l, r))
       <==> !(SameUpToPadding(l.(glass := r.glass), r) && l.glass ^ r.glass == 1)
  {
    LowestBitMasked(l.glass, r.glass);
    NoDifference(l.glass);
    NothingMasked(l.mouth);
    NothingMasked(r.mouth);
    NothingMasked(l.beard);
    NothingMasked(r.beard);
    hide Keep, Keep32;
  }

  lemma LowestBitMasked(a: bv16, b: bv16)
    ensures Keep(a, 0xFFFE) == Keep(b, 0xFFFE) ==> a == b || a ^ b == 1
    ensures a ^ b == 1 ==> Keep(a, 0xFFFE) == Keep(b, 0xFFFE)
  {
  }

  lemma NoDifference(a: bv16)
    ensures a ^ a == 0
  {
  }

  lemma NothingMasked(a: bv16)
    ensures Keep(a, 0xFFFF) == a
  {
  }

  /** Two faces that differ only in the lowest bit of the glasses' height count as the
      same: the mask of the glasses drops that bit. */
  lemma GlassesHeightIgnored(i: CharInfo)
    ensures IsSameFace(i, i.(glass := i.glass ^ 1)) && i.glass ^ 1 != i.glass
    ensures Get(i.glass ^ 1, 0, 0x1F) != Get(i.glass, 0, 0x1F)
  {
  }
}
