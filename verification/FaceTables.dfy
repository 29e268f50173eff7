/**
 The part tables of the random faces. A row holds the candidates for one sex, age and race,
 at sex*9 + age*3 + race unless said otherwise, without the unused zeros behind them.
 */
module FaceTables {
  /** A row to pick from, with entries up to max. */
  predicate AtMost(row: seq<int>, max: int) {
    |row| > 0 && forall x :: x in row ==> 0 <= x <= max
  }

  /** `facelineTypeTable`. */
  function FacelineTypes(index: nat): (row: seq<int>)
    requires index < 18
    ensures AtMost(row, 7)
  {
    if index <= 2 || 9 <= index <= 11 then [0, 0, 0, 1, 1, 1, 2, 3, 4, 5]
    else if index == 3 || 5 <= index <= 6 || index == 8 then [0, 0, 1, 2, 2, 3, 4, 5, 6, 7]
    else if index == 4 then [0, 1, 2, 2, 3, 4, 5, 6, 6, 7]
    else if index == 7 then [0, 1, 2, 2, 3, 4, 5, 6, 7, 7]
    else [0, 0, 0, 1, 1, 2, 2, 3, 4, 5]
  }

  function HairParts0(): (row: seq<int>)
    ensures AtMost(row, 71) && |row| == 26
  {
    [13, 23, 30, 31, 32, 33, 34, 35, 36, 37, 38, 40, 43, 44, 45, 47, 48, 49, 50, 51, 52, 54, 56, 57, 64, 66]
  }

  function HairParts1(): (row: seq<int>)
    ensures AtMost(row, 71) && |row| == 34
  {
    [13, 23, 30, 31, 32, 33, 34, 36, 37, 38, 40, 42, 43, 44, 45, 47, 48, 49, 50, 51, 52, 53, 54, 55, 56, 58,
     59, 60, 64, 65, 66, 67, 68, 70]
  }

  function HairParts2(): (row: seq<int>)
    ensures AtMost(row, 71) && |row| == 34
  {
    [13, 23, 30, 31, 32, 33, 34, 36, 37, 38, 39, 40, 43, 44, 45, 47, 48, 49, 50, 51, 52, 53, 54, 55, 56, 58,
     59, 60, 64, 65, 66, 67, 68, 70]
  }

  function HairParts3(): (row: seq<int>)
    ensures AtMost(row, 71) && |row| == 16
  {
    [13, 23, 30, 36, 37, 41, 45, 47, 51, 53, 54, 55, 58, 59, 65, 67]
  }

  function HairParts4(): (row: seq<int>)
    ensures AtMost(row, 71) && |row| == 17
  {
    [13, 23, 30, 36, 37, 39, 41, 45, 47, 51, 53, 54, 55, 58, 59, 65, 67]
  }

  function HairParts5(): (row: seq<int>)
    ensures AtMost(row, 71) && |row| == 33
  {
    [0, 1, 2, 3, 4, 5, 6, 8, 9, 10, 11, 12, 13, 14, 15, 16, 17, 18, 19, 20, 21, 22, 24, 25, 26, 28, 46, 50, 61,
     62, 63, 64, 69]
  }

  function HairParts6(): (row: seq<int>)
    ensures AtMost(row, 71) && |row| == 37
  {
    [0, 1, 2, 3, 4, 5, 6, 7, 8, 9, 10, 11, 12, 13, 14, 15, 16, 17, 18, 19, 20, 21, 22, 24, 25, 26, 27, 29, 42,
     50, 58, 60, 62, 63, 64, 69, 71]
  }

  function HairParts7(): (row: seq<int>)
    ensures AtMost(row, 71) && |row| == 36
  {
    [0, 1, 2, 3, 4, 5, 6, 7, 8, 9, 10, 11, 12, 13, 14, 15, 16, 17, 18, 19, 20, 21, 22, 24, 25, 26, 27, 29, 50,
     58, 60, 62, 63, 64, 69, 71]
  }

  function HairParts8(): (row: seq<int>)
    ensures AtMost(row, 71) && |row| == 22
  {
    [0, 1, 2, 3, 4, 5, 6, 10, 11, 12, 13, 14, 16, 17, 18, 20, 21, 24, 25, 58, 62, 69]
  }

  function HairPartsMale(index: nat): (row: seq<int>)
    requires 0 <= index < 9
    ensures AtMost(row, 71)
  {
    if index <= 2 then HairParts0()
    else if index == 3 then HairParts1()
    else if 4 <= index <= 5 then HairParts2()
    else if index == 6 then HairParts3()
    else HairParts4()
  }

  function HairPartsFemale(index: nat): (row: seq<int>)
    requires 9 <= index < 18
    ensures AtMost(row, 71)
  {
    if 9 <= index <= 11 then HairParts5()
    else if index == 12 then HairParts6()
    else if 13 <= index <= 14 then HairParts7()
    else HairParts8()
  }

  /** `hair_parts`. */
  function HairParts(index: nat): (row: seq<int>)
    requires index < 18
    ensures AtMost(row, 71)
  {
    if index < 9 then HairPartsMale(index) else HairPartsFemale(index)
  }

  function EyeParts0(): (row: seq<int>)
    ensures AtMost(row, 47) && |row| == 22
  {
    [2, 3, 5, 7, 8, 9, 11, 12, 13, 15, 16, 18, 27, 29, 32, 34, 36, 38, 39, 41, 43, 47]
  }

  function EyeParts1(): (row: seq<int>)
    ensures AtMost(row, 47) && |row| == 23
  {
    [2, 3, 5, 7, 8, 9, 11, 12, 13, 15, 16, 18, 26, 27, 29, 32, 34, 36, 38, 39, 41, 43, 47]
  }

  function EyeParts2(): (row: seq<int>)
    ensures AtMost(row, 47) && |row| == 29
  {
    [2, 3, 5, 6, 7, 8, 9, 11, 12, 13, 15, 16, 17, 18, 21, 22, 27, 29, 31, 32, 34, 36, 37, 38, 39, 41, 43, 44,
     47]
  }

  function EyeParts3(): (row: seq<int>)
    ensures AtMost(row, 47) && |row| == 29
  {
    [2, 3, 5, 6, 7, 8, 9, 11, 12, 13, 15, 16, 18, 21, 22, 26, 27, 29, 31, 32, 34, 36, 37, 38, 39, 41, 43, 44,
     47]
  }

  function EyeParts4(): (row: seq<int>)
    ensures AtMost(row, 47) && |row| == 24
  {
    [2, 3, 5, 7, 8, 9, 11, 12, 13, 14, 15, 16, 17, 18, 21, 22, 31, 32, 34, 36, 37, 39, 41, 44]
  }

  function EyeParts5(): (row: seq<int>)
    ensures AtMost(row, 47) && |row| == 24
  {
    [2, 3, 5, 7, 8, 9, 11, 12, 13, 14, 15, 16, 18, 21, 22, 26, 31, 32, 34, 36, 37, 39, 41, 44]
  }

  function EyeParts6(): (row: seq<int>)
    ensures AtMost(row, 47) && |row| == 34
  {
    [0, 1, 2, 4, 5, 7, 8, 9, 10, 11, 12, 13, 15, 16, 18, 19, 23, 24, 25, 27, 28, 29, 32, 33, 34, 35, 38, 39,
     40, 41, 42, 45, 46, 47]
  }

  function EyeParts7(): (row: seq<int>)
    ensures AtMost(row, 47) && |row| == 35
  {
    [0, 1, 2, 4, 5, 7, 8, 9, 10, 11, 12, 13, 15, 16, 18, 19, 23, 24, 25, 26, 27, 28, 29, 32, 33, 34, 35, 38,
     39, 40, 41, 42, 45, 46, 47]
  }

  function EyeParts8(): (row: seq<int>)
    ensures AtMost(row, 47) && |row| == 40
  {
    [0, 1, 2, 4, 5, 6, 7, 8, 9, 10, 11, 12, 13, 15, 16, 17, 18, 19, 20, 21, 23, 24, 25, 27, 28, 29, 30, 32, 33,
     34, 35, 37, 38, 39, 40, 41, 42, 45, 46, 47]
  }

  function EyeParts9(): (row: seq<int>)
    ensures AtMost(row, 47) && |row| == 40
  {
    [0, 1, 2, 4, 5, 6, 7, 8, 9, 10, 11, 12, 13, 15, 16, 18, 19, 20, 21, 23, 24, 25, 26, 27, 28, 29, 30, 32, 33,
     34, 35, 37, 38, 39, 40, 41, 42, 45, 46, 47]
  }

  function EyeParts10(): (row: seq<int>)
    ensures AtMost(row, 47) && |row| == 20
  {
    [1, 2, 5, 7, 8, 9, 11, 12, 13, 14, 15, 16, 17, 18, 21, 32, 34, 37, 39, 41]
  }

  function EyeParts11(): (row: seq<int>)
    ensures AtMost(row, 47) && |row| == 20
  {
    [1, 2, 5, 7, 8, 9, 11, 12, 13, 14, 15, 16, 18, 21, 26, 32, 34, 37, 39, 41]
  }

  function EyePartsMale(index: nat): (row: seq<int>)
    requires 0 <= index < 9
    ensures AtMost(row, 47)
  {
    if index <= 1 then EyeParts0()
    else if index == 2 then EyeParts1()
    else if 3 <= index <= 4 then EyeParts2()
    else if index == 5 then EyeParts3()
    else if 6 <= index <= 7 then EyeParts4()
    else EyeParts5()
  }

  function EyePartsFemale(index: nat): (row: seq<int>)
    requires 9 <= index < 18
    ensures AtMost(row, 47)
  {
    if 9 <= index <= 10 then EyeParts6()
    else if index == 11 then EyeParts7()
    else if 12 <= index <= 13 then EyeParts8()
    else if index == 14 then EyeParts9()
    else if 15 <= index <= 16 then EyeParts10()
    else EyeParts11()
  }

  /** `eye_parts`. */
  function EyeParts(index: nat): (row: seq<int>)
    requires index < 18
    ensures AtMost(row, 47)
  {
    if index < 9 then EyePartsMale(index) else EyePartsFemale(index)
  }

  function EyebrowParts0(): (row: seq<int>)
    ensures AtMost(row, 23) && |row| == 18
  {
    [0, 1, 2, 3, 4, 5, 6, 7, 8, 9, 10, 11, 12, 13, 14, 17, 18, 20]
  }

  function EyebrowParts1(): (row: seq<int>)
    ensures AtMost(row, 23) && |row| == 23
  {
    [0, 1, 2, 3, 4, 5, 6, 7, 8, 9, 10, 11, 12, 13, 14, 15, 16, 17, 18, 19, 20, 21, 22]
  }

  function EyebrowParts2(): (row: seq<int>)
    ensures AtMost(row, 23) && |row| == 21
  {
    [0, 2, 3, 4, 5, 6, 7, 8, 9, 10, 11, 12, 13, 14, 15, 16, 17, 18, 20, 21, 22]
  }

  function EyebrowParts3(): (row: seq<int>)
    ensures AtMost(row, 23) && |row| == 9
  {
    [0, 1, 3, 7, 8, 9, 10, 11, 13]
  }

  function EyebrowParts4(): (row: seq<int>)
    ensures AtMost(row, 23) && |row| == 11
  {
    [0, 1, 3, 7, 8, 9, 10, 11, 13, 15, 19]
  }

  function EyebrowParts5(): (row: seq<int>)
    ensures AtMost(row, 23) && |row| == 9
  {
    [0, 3, 7, 8, 9, 10, 11, 13, 15]
  }

  /** `eyebrow_parts`. */
  function EyebrowParts(index: nat): (row: seq<int>)
    requires index < 18
    ensures AtMost(row, 23)
  {
    if index <= 2 then EyebrowParts0()
    else if 3 <= index <= 5 then EyebrowParts1()
    else if 6 <= index <= 8 then EyebrowParts2()
    else if 9 <= index <= 11 then EyebrowParts3()
    else if 12 <= index <= 14 then EyebrowParts4()
    else EyebrowParts5()
  }

  /** `nose_parts`. */
  function NoseParts(index: nat): (row: seq<int>)
    requires index < 18
    ensures AtMost(row, 11)
  {
    if index <= 2 then [0, 1, 2, 3, 4, 5, 7, 8, 10]
    else if 3 <= index <= 4 || 6 <= index <= 7 then [0, 1, 2, 3, 4, 5, 6, 7, 8, 9, 10, 11]
    else if index == 5 || index == 8 then [0, 1, 2, 3, 4, 5, 6, 7, 8, 10, 11]
    else if 9 <= index <= 11 then [0, 1, 3, 4, 8, 10]
    else if 12 <= index <= 13 || 15 <= index <= 16 then [0, 1, 3, 4, 6, 8, 9, 10, 11]
    else [0, 1, 3, 4, 6, 8, 10, 11]
  }

  function MouthParts0(): (row: seq<int>)
    ensures AtMost(row, 23) && |row| == 17
  {
    [0, 2, 3, 6, 7, 8, 9, 10, 12, 14, 15, 17, 18, 19, 21, 22, 23]
  }

  function MouthParts1(): (row: seq<int>)
    ensures AtMost(row, 23) && |row| == 19
  {
    [0, 2, 3, 6, 7, 8, 9, 10, 11, 12, 13, 14, 15, 17, 18, 19, 21, 22, 23]
  }

  function MouthParts2(): (row: seq<int>)
    ensures AtMost(row, 23) && |row| == 19
  {
    [0, 2, 3, 6, 7, 8, 9, 10, 12, 14, 15, 16, 17, 18, 19, 20, 21, 22, 23]
  }

  function MouthParts3(): (row: seq<int>)
    ensures AtMost(row, 23) && |row| == 21
  {
    [0, 2, 3, 6, 7, 8, 9, 10, 11, 12, 13, 14, 15, 16, 17, 18, 19, 20, 21, 22, 23]
  }

  function MouthParts4(): (row: seq<int>)
    ensures AtMost(row, 23) && |row| == 19
  {
    [0, 1, 2, 3, 4, 5, 6, 7, 8, 9, 12, 14, 15, 17, 18, 19, 21, 22, 23]
  }

  function MouthParts5(): (row: seq<int>)
    ensures AtMost(row, 23) && |row| == 20
  {
    [0, 1, 2, 3, 4, 5, 6, 7, 8, 9, 12, 13, 14, 15, 17, 18, 19, 21, 22, 23]
  }

  function MouthParts6(): (row: seq<int>)
    ensures AtMost(row, 23) && |row| == 20
  {
    [0, 1, 2, 3, 4, 5, 6, 7, 8, 9, 12, 14, 15, 16, 17, 18, 19, 21, 22, 23]
  }

  function MouthParts7(): (row: seq<int>)
    ensures AtMost(row, 23) && |row| == 21
  {
    [0, 1, 2, 3, 4, 5, 6, 7, 8, 9, 12, 13, 14, 15, 16, 17, 18, 19, 21, 22, 23]
  }

  function MouthPartsMale(index: nat): (row: seq<int>)
    requires 0 <= index < 9
    ensures AtMost(row, 23)
  {
    if index == 0 then MouthParts0()
    else if 1 <= index <= 2 then MouthParts1()
    else if index == 3 || index == 6 then MouthParts2()
    else MouthParts3()
  }

  function MouthPartsFemale(index: nat): (row: seq<int>)
    requires 9 <= index < 18
    ensures AtMost(row, 23)
  {
    if index == 9 || index == 12 then MouthParts4()
    else if 10 <= index <= 11 || 13 <= index <= 14 then MouthParts5()
    else if index == 15 then MouthParts6()
    else MouthParts7()
  }

  /** `mouth_parts`. */
  function MouthParts(index: nat): (row: seq<int>)
    requires index < 18
    ensures AtMost(row, 23)
  {
    if index < 9 then MouthPartsMale(index) else MouthPartsFemale(index)
  }

  function FaceTextures0(): (row: seq<int>)
    ensures AtMost(row, 11)
  {
    [0, 0, 0, 0, 0, 0, 0, 0, 0, 0, 0, 0, 0, 0, 0, 0, 0, 0, 3, 3]
  }

  function FaceTextures1(): (row: seq<int>)
    ensures AtMost(row, 11)
  {
    [0, 0, 0, 0, 0, 0, 0, 0, 0, 0, 0, 0, 0, 0, 3, 3, 3, 3, 8, 8]
  }

  function FaceTextures2(): (row: seq<int>)
    ensures AtMost(row, 11)
  {
    [0, 0, 0, 0, 0, 0, 0, 0, 0, 0, 0, 0, 3, 4, 5, 6, 7, 8, 9, 10]
  }

  function FaceTextures3(): (row: seq<int>)
    ensures AtMost(row, 11)
  {
    [0, 0, 0, 0, 0, 0, 0, 0, 0, 0, 0, 0, 0, 3, 4, 5, 6, 7, 9, 10]
  }

  function FaceTextures4(): (row: seq<int>)
    ensures AtMost(row, 11)
  {
    [10, 10, 11, 11, 11, 11, 11, 11, 11, 11, 11, 11, 11, 11, 11, 11, 11, 11, 11, 11]
  }

  function FaceTextures5(): (row: seq<int>)
    ensures AtMost(row, 11)
  {
    [0, 0, 0, 0, 0, 0, 0, 0, 0, 0, 0, 0, 0, 0, 0, 0, 3, 3, 4, 4]
  }

  function FaceTextures6(): (row: seq<int>)
    ensures AtMost(row, 11)
  {
    [0, 0, 0, 0, 0, 0, 0, 0, 1, 1, 1, 1, 1, 1, 1, 1, 3, 3, 4, 4]
  }

  function FaceTextures7(): (row: seq<int>)
    ensures AtMost(row, 11)
  {
    [0, 0, 0, 0, 0, 0, 0, 0, 0, 0, 0, 0, 0, 0, 3, 3, 4, 4, 8, 8]
  }

  function FaceTextures8(): (row: seq<int>)
    ensures AtMost(row, 11)
  {
    [0, 0, 1, 1, 1, 1, 1, 1, 1, 1, 1, 1, 2, 2, 2, 2, 4, 4, 8, 8]
  }

  function FaceTextures9(): (row: seq<int>)
    ensures AtMost(row, 11)
  {
    [0, 0, 0, 0, 1, 1, 1, 1, 1, 1, 1, 1, 1, 1, 2, 2, 2, 2, 4, 4]
  }

  function FaceTexturesMale(index: nat): (row: seq<int>)
    requires 0 <= index < 9
    ensures AtMost(row, 11)
  {
    if index == 0 || index == 2 then FaceTextures0()
    else if index == 1 then FaceTextures1()
    else if 3 <= index <= 4 then FaceTextures2()
    else if index == 5 then FaceTextures3()
    else FaceTextures4()
  }

  function FaceTexturesFemale(index: nat): (row: seq<int>)
    requires 9 <= index < 18
    ensures AtMost(row, 11)
  {
    if 15 <= index <= 17 then FaceTextures4()
    else if index == 9 then FaceTextures5()
    else if 10 <= index <= 11 then FaceTextures6()
    else if index == 12 then FaceTextures7()
    else if index == 13 then FaceTextures8()
    else FaceTextures9()
  }

  /** `faceTexTypeTable`. */
  function FaceTextures(index: nat): (row: seq<int>)
    requires index < 18
    ensures AtMost(row, 11)
  {
    if index < 9 then FaceTexturesMale(index) else FaceTexturesFemale(index)
  }

  /** `faceColorTable`, by sex and race. */
  function FaceColors(index: nat): (row: seq<int>)
    requires index < 6
    ensures AtMost(row, 5)
  {
    if index == 0 || index == 3 then [2, 2, 4, 4, 4, 4, 5, 5, 5, 5]
    else if index == 1 then [0, 0, 0, 0, 1, 1, 2, 3, 3, 3]
    else if index == 2 then [0, 0, 1, 1, 1, 1, 1, 1, 1, 2]
    else if index == 4 then [0, 0, 0, 0, 0, 0, 0, 0, 1, 3]
    else [0, 0, 0, 0, 0, 0, 0, 0, 1, 1]
  }

  function HairColors0(): (row: seq<int>)
    ensures AtMost(row, 7)
  {
    [0, 0, 0, 0, 0, 0, 0, 0, 0, 0, 0, 0, 0, 0, 0, 0, 0, 0, 0, 0]
  }

  function HairColors1(): (row: seq<int>)
    ensures AtMost(row, 7)
  {
    [0, 0, 0, 0, 4, 4, 4, 4, 4, 4, 4, 4, 4, 4, 4, 4, 4, 4, 4, 4]
  }

  function HairColors2(): (row: seq<int>)
    ensures AtMost(row, 7)
  {
    [2, 3, 3, 5, 5, 5, 5, 6, 6, 6, 6, 6, 6, 7, 7, 7, 7, 7, 7, 7]
  }

  function HairColors3(): (row: seq<int>)
    ensures AtMost(row, 7)
  {
    [2, 3, 3, 3, 5, 5, 5, 5, 6, 6, 6, 6, 6, 6, 7, 7, 7, 7, 7, 7]
  }

  function HairColors4(): (row: seq<int>)
    ensures AtMost(row, 7)
  {
    [2, 3, 3, 4, 4, 4, 4, 4, 4, 5, 6, 6, 6, 6, 7, 7, 7, 7, 7, 7]
  }

  function HairColors5(): (row: seq<int>)
    ensures AtMost(row, 7)
  {
    [0, 0, 0, 0, 0, 0, 0, 0, 0, 0, 0, 0, 0, 0, 1, 1, 1, 1, 1, 1]
  }

  function HairColors6(): (row: seq<int>)
    ensures AtMost(row, 7)
  {
    [0, 0, 0, 0, 0, 0, 1, 1, 1, 1, 1, 1, 1, 1, 2, 3, 3, 3, 3, 3]
  }

  function HairColors7(): (row: seq<int>)
    ensures AtMost(row, 7)
  {
    [4, 4, 4, 4, 4, 4, 4, 4, 4, 4, 4, 4, 4, 4, 4, 4, 4, 4, 4, 4]
  }

  /** `hairColorTable`, by race and age. */
  function HairColors(index: nat): (row: seq<int>)
    requires index < 9
    ensures AtMost(row, 7)
  {
    if index <= 1 then HairColors0()
    else if index == 2 then HairColors1()
    else if index == 3 then HairColors2()
    else if index == 4 then HairColors3()
    else if index == 5 then HairColors4()
    else if index == 6 then HairColors5()
    else if index == 7 then HairColors6()
    else HairColors7()
  }

  /** `eyeColorTable`, by race. */
  function EyeColors(index: nat): (row: seq<int>)
    requires index < 3
    ensures AtMost(row, 5)
  {
    if index == 0 || index == 2 then [0, 0, 0, 0, 0, 0, 0, 0, 0, 1]
    else [0, 1, 1, 2, 3, 3, 4, 4, 4, 5]
  }

  /** `RFLi_EYE_ROT_OFFSET`. */
  function EyeRotOffsets(): (row: seq<int>)
    ensures |row| == 50 && forall x :: x in row ==> 28 <= x <= 29
  {
    [29, 28, 28, 28, 29, 28, 28, 28, 29, 28, 28, 28, 28, 29, 29, 28, 28, 28, 29, 29, 28, 29, 28, 29, 29] +
    [28, 29, 28, 28, 29, 28, 28, 28, 29, 29, 29, 28, 28, 29, 29, 29, 28, 28, 29, 29, 29, 29, 29, 28, 28]
  }

  /** `RFLi_EYEBROW_ROT_OFFSET`. */
  function EyebrowRotOffsets(): (row: seq<int>)
    ensures |row| == 24 && forall x :: x in row ==> 24 <= x <= 28
  {
    [26, 26, 27, 25, 26, 25, 26, 25, 28, 25, 26, 24, 27, 27, 26, 26, 25, 25, 26, 26, 27, 26, 25, 27]
  }

  // ---------------------------------------------------------------- the numbers of the candidates

  /** The rows are as long as the tables of numbers beside them say. */
  lemma HairCounts(i: nat)
    requires i < 18
    ensures |HairParts(i)| == [26, 26, 26, 34, 34, 34, 16, 17, 17, 33, 33, 33, 37, 36, 36, 22, 22, 22][i]
  {
    hide AtMost, HairParts0, HairParts1, HairParts2, HairParts3, HairParts4;
    hide HairParts5, HairParts6, HairParts7, HairParts8;
  }

  lemma EyeCounts(i: nat)
    requires i < 18
    ensures |EyeParts(i)| == [22, 22, 23, 29, 29, 29, 24, 24, 24, 34, 34, 35, 40, 40, 40, 20, 20, 20][i]
  {
    hide AtMost, EyeParts0, EyeParts1, EyeParts2, EyeParts3, EyeParts4, EyeParts5;
    hide EyeParts6, EyeParts7, EyeParts8, EyeParts9, EyeParts10, EyeParts11;
  }

  lemma EyebrowCounts(i: nat)
    requires i < 18
    ensures |EyebrowParts(i)| == [18, 18, 18, 23, 23, 23, 21, 21, 21, 9, 9, 9, 11, 11, 11, 9, 9, 9][i]
  {
    hide AtMost, EyebrowParts0, EyebrowParts1, EyebrowParts2, EyebrowParts3, EyebrowParts4, EyebrowParts5;
  }

  lemma NoseCounts(i: nat)
    requires i < 18
    ensures |NoseParts(i)| == [9, 9, 9, 12, 12, 11, 12, 12, 11, 6, 6, 6, 9, 9, 8, 9, 9, 8][i]
  {
    hide AtMost;
  }

  lemma MouthCounts(i: nat)
    requires i < 18
    ensures |MouthParts(i)| == [17, 19, 19, 19, 21, 21, 19, 21, 21, 19, 20, 20, 19, 20, 20, 20, 21, 21][i]
  {
    hide AtMost, MouthParts0, MouthParts1, MouthParts2, MouthParts3;
    hide MouthParts4, MouthParts5, MouthParts6, MouthParts7;
  }
}
