/**
 `RFLCreateID` and its predicates.
 */
module CreateIds {
  import opened Words

  /** The eight bytes of an identifier, as the two words the predicates compare. */
  datatype CreateID = CreateID(w0: u32, w1: u32)

  const NO_ID := CreateID(0, 0)

  predicate IsValidID(id: CreateID) {
    id.w0 != 0 || id.w1 != 0
  }

  predicate IsTemporaryID(id: CreateID) {
    IsValidID(id) && And(id.w0, 0x2000_0000) != 0
  }

  predicate IsSpecialID(id: CreateID) {
    IsValidID(id) && !IsTemporaryID(id) && And(id.w0, 0x8000_0000) == 0
  }

  /** Invalid and temporary identifiers are the same as nothing, not even themselves. */
  predicate IsSameID(id1: CreateID, id2: CreateID) {
    if !IsValidID(id1) then false
    else if !IsValidID(id2) then false
    else if IsTemporaryID(id1) then false
    else if IsTemporaryID(id2) then false
    else if id1.w0 != id2.w0 then false
    else id1.w1 == id2.w1
  }

  /** An identifier that other records can be matched against. */
  predicate IsPermanentID(id: CreateID) {
    IsValidID(id) && !IsTemporaryID(id)
  }

  /** Bit 29 of the first word marks a temporary identifier; without it and bit 31, a valid
      one is special. */
  lemma MarksExactly(id: CreateID)
    ensures IsTemporaryID(id) <==> id.w0 / 0x2000_0000 % 2 == 1
    ensures IsSpecialID(id) <==> id != NO_ID && id.w0 / 0x2000_0000 % 2 == 0 && id.w0 / 0x8000_0000 % 2 == 0
  {
    BitTest(id.w0, 29, 0x2000_0000);
    BitTest(id.w0, 31, 0x8000_0000);
    hide And;
    assert id.w0 == 0 ==> id.w0 / 0x2000_0000 % 2 == 0;
  }

  lemma BitTest(w: u32, b: nat, p: nat)
    requires (b == 29 && p == 0x2000_0000) || (b == 31 && p == 0x8000_0000)
    ensures And(w, p) == w / p % 2 * p
  {
    hide And, Pow2;
    assert Pow2(1) == 2 && Pow2(31) == 0x8000_0000 && Pow2(8) == 0x100 && Pow2(21) == 0x20_0000 by { Pow2Values(); }
    Pow2Add(21, 8);
    assert Pow2(b) == p;
    AndMask(w, 1, b);
    assert Mask(1, b) == p && Field(w, 1, b) == w / p % 2;
  }
}
