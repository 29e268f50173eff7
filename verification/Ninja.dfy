/**
 The writer of Ninja files: wrapping of long lines, and escaping and expansion of text.
 */
module Ninja {
  import opened Options

  // ---------------------------------------------------------------- dollars and breaks

  /** `_count_dollars_before_index`: the run of dollars before position i, which is never
      followed down to position 0. */
  function CountDollars(s: string, i: nat): (n: nat)
    requires i <= |s|
    ensures n <= i
  {
    if i > 1 && s[i - 1] == '$' then CountDollars(s, i - 1) + 1 else 0
  }

  /** The whole run of dollars before position i. */
  function AllDollars(s: string, i: nat): (n: nat)
    requires i <= |s|
    ensures n <= i
  {
    if i > 0 && s[i - 1] == '$' then AllDollars(s, i - 1) + 1 else 0
  }

  method CountDollarsBeforeIndex(s: string, i: nat) returns (dollarCount: nat)
    requires i <= |s|
    ensures dollarCount == CountDollars(s, i)
  {
    dollarCount := 0;
    var dollarIndex := i - 1;
    while dollarIndex > 0 && s[dollarIndex] == '$'
      invariant -1 <= dollarIndex < i && (dollarIndex == -1 ==> i == 0)
      invariant dollarCount + CountDollars(s, dollarIndex + 1) == CountDollars(s, i)
    {
      dollarCount := dollarCount + 1;
      dollarIndex := dollarIndex - 1;
    }
  }

  /** The count is off by one exactly when the dollars reach the start of the text. */
  lemma {:induction false} CountIsOff(s: string, i: nat)
    requires i <= |s|
    ensures CountDollars(s, i) == AllDollars(s, i) - if i > 0 && AllDollars(s, i) == i then 1 else 0
  {
    if i > 1 && s[i - 1] == '$' { CountIsOff(s, i - 1); }
  }

  /** A space at which the writer may break. */
  predicate Breakable(s: string, i: int) {
    0 <= i < |s| && s[i] == ' ' && CountDollars(s, i) % 2 == 0
  }

  /** A space that Ninja does not take as escaped. */
  predicate Unescaped(s: string, i: int) {
    0 <= i < |s| && s[i] == ' ' && AllDollars(s, i) % 2 == 0
  }

  /** The two agree except on a space that only dollars, at least one, precede. */
  lemma BreakableIffUnescaped(s: string, i: nat)
    requires i < |s| && s[i] == ' '
    ensures (Breakable(s, i) <==> Unescaped(s, i)) <==> !(i > 0 && AllDollars(s, i) == i)
  {
    CountIsOff(s, i);
  }

  /** An escaped space at which the writer breaks. */
  lemma EscapedSpaceBroken()
    ensures Breakable("$ x", 1) && !Unescaped("$ x", 1)
  {
    assert AllDollars("$ x", 1) == AllDollars("$ x", 0) + 1;
  }

  // ---------------------------------------------------------------- Python's find and rfind

  /** A slice bound of Python: a negative one counts from the end. */
  function Bound(b: int, n: nat): (c: nat)
    ensures c <= n
  {
    var c := if b < 0 then b + n else b;
    if c < 0 then 0 else if c > n then n else c
  }

  /** `text.rfind(" ", 0, end)`. */
  function RFind(text: string, end: int): (i: int)
    ensures -1 <= i < |text| && i < |text[..Bound(end, |text|)]|
    ensures i >= 0 ==> text[i] == ' '
    ensures forall j :: i < j < Bound(end, |text|) ==> text[j] != ' '
  {
    RFindBelow(text, Bound(end, |text|))
  }

  function RFindBelow(text: string, n: nat): (i: int)
    requires n <= |text|
    ensures -1 <= i < n
    ensures i >= 0 ==> text[i] == ' '
    ensures forall j :: i < j < n ==> text[j] != ' '
  {
    if n == 0 then -1 else if text[n - 1] == ' ' then n - 1 else RFindBelow(text, n - 1)
  }

  /** `text.find(" ", start)`. */
  function Find(text: string, start: int): (i: int)
    ensures -1 <= i < |text|
    ensures i >= 0 ==> text[i] == ' ' && i >= Bound(start, |text|)
    ensures forall j :: Bound(start, |text|) <= j < (if i < 0 then |text| else i) ==> text[j] != ' '
  {
    FindFrom(text, Bound(start, |text|))
  }

  function FindFrom(text: string, n: nat): (i: int)
    requires n <= |text|
    ensures i == -1 || n <= i < |text|
    ensures i >= 0 ==> text[i] == ' '
    ensures forall j :: n <= j < (if i < 0 then |text| else i) ==> text[j] != ' '
    decreases |text| - n
  {
    if n == |text| then -1 else if text[n] == ' ' then n else FindFrom(text, n + 1)
  }

  // ---------------------------------------------------------------- wrapping

  function Spaces(n: nat): (s: string)
    ensures |s| == 2 * n
  {
    if n == 0 then "" else "  " + Spaces(n - 1)
  }

  /** The first inner loop of `_line`: the rightmost breakable space before the limit. */
  method BreakBefore(text: string, available: int) returns (space: int)
    ensures -1 <= space < |text|
    ensures space >= 0 ==> Breakable(text, space) && space < Bound(available, |text|)
    ensures forall j :: space < j < Bound(available, |text|) ==> !Breakable(text, j)
  {
    hide CountDollars;
    space := RFind(text, available);
    while !(space < 0 || CountDollars(text, space) % 2 == 0)
      invariant -1 <= space < |text| && space < |text[..Bound(available, |text|)]|
      invariant space >= 0 ==> text[space] == ' '
      invariant forall j :: space < j < Bound(available, |text|) ==> !Breakable(text, j)
      decreases space
    {
      space := RFind(text, space);
    }
  }

  /** The second inner loop of `_line`: the leftmost breakable space from the limit on. */
  method BreakAfter(text: string, available: int) returns (space: int)
    ensures -1 <= space < |text|
    ensures space >= 0 ==> Breakable(text, space) && space >= Bound(available, |text|)
    ensures forall j :: Bound(available, |text|) <= j < (if space < 0 then |text| else space) ==> !Breakable(text, j)
  {
    hide CountDollars;
    space := Find(text, available);
    while !(space < 0 || CountDollars(text, space) % 2 == 0)
      invariant -1 <= space < |text|
      invariant space >= 0 ==> text[space] == ' ' && space >= Bound(available, |text|)
      invariant forall j ::
        Bound(available, |text|) <= j < (if space < 0 then |text| else space) ==> !Breakable(text, j)
      decreases if space < 0 then 0 else |text| - space
    {
      space := Find(text, space + 1);
    }
  }

  /** The pieces joined by single spaces. */
  function Join(pieces: seq<string>): string {
    if |pieces| == 0 then ""
    else if |pieces| == 1 then pieces[0]
    else pieces[0] + " " + Join(pieces[1..])
  }

  /** The lines that the pieces make: all but the last end with a dollar, and all but the
      first are indented two levels more. */
  function Render(pieces: seq<string>, lead: string, next: string): string {
    if |pieces| == 0 then ""
    else if |pieces| == 1 then lead + pieces[0] + "\n"
    else lead + pieces[0] + " $\n" + Render(pieces[1..], next, next)
  }

  /** A break of `text` behind `size` characters, when the line is indented by `lead`. */
  predicate WellBroken(text: string, size: nat, lead: nat, width: int) {
    var limit := Bound(width - lead - 2, |text|);
    && lead + |text| > width
    && Breakable(text, size)
    && if size < limit then forall j :: size < j < limit ==> !Breakable(text, j)
       else forall j :: 0 <= j < size ==> !Breakable(text, j)
  }

  /** Every piece ends at the break that the width asks for, and the last one cannot, or
      need not, be broken. */
  predicate Wrapped(pieces: seq<string>, lead: nat, next: nat, width: int) {
    && |pieces| > 0
    && if |pieces| == 1 then
         lead + |pieces[0]| <= width || forall j :: 0 <= j < |pieces[0]| ==> !Breakable(pieces[0], j)
       else
         WellBroken(Join(pieces), |pieces[0]|, lead, width) && Wrapped(pieces[1..], next, next, width)
  }

  /** When the line that ends at a break fits, with its dollar: a break before the limit
      fits exactly unless the indent leaves no room for the dollar at all, where the bound of
      the search counts from the end of the text; a later one only right at the limit. */
  lemma BreakFits(text: string, size: nat, lead: nat, width: int)
    requires WellBroken(text, size, lead, width)
    ensures size < Bound(width - lead - 2, |text|) ==> (lead + size + |" $"| <= width <==> width - lead >= 2)
    ensures size >= Bound(width - lead - 2, |text|) ==> (lead + size + |" $"| <= width <==> size == width - lead - 2)
  {
  }

  // ---------------------------------------------------------------- breaks in the whole text

  /** The position of the break behind piece k in the joined text. */
  function BreakAt(pieces: seq<string>, k: nat): (at: nat)
    requires k < |pieces|
    ensures at >= |pieces[k]|
  {
    if k == 0 then |pieces[0]| else |pieces[0]| + 1 + BreakAt(pieces[1..], k - 1)
  }

  predicate OddDollars(p: string) {
    |p| % 2 == 1 && forall j :: 0 <= j < |p| ==> p[j] == '$'
  }

  /** An odd run of dollars, from i to j, that a space follows, at the start of the text or
      behind a space at which the writer may break. */
  predicate OddWord(text: string, i: int, j: int) {
    0 <= i < j < |text| && text[j] == ' ' && (i == 0 || Breakable(text, i - 1)) && OddDollars(text[i..j])
  }

  ghost predicate NoOddWord(text: string) {
    forall i, j :: !OddWord(text, i, j)
  }

  lemma {:induction false} OnlyDollars(s: string, i: nat)
    requires i <= |s|
    ensures AllDollars(s, i) == i <==> forall j :: 0 <= j < i ==> s[j] == '$'
  {
    if i > 0 { OnlyDollars(s, i - 1); }
  }

  /** A run of dollars does not reach behind a space. */
  lemma {:induction false} DollarsBehindSpace(a: string, b: string, i: nat)
    requires i <= |b|
    ensures AllDollars(a + " " + b, |a| + 1 + i) == AllDollars(b, i)
  {
    var s := a + " " + b;
    if i == 0 {
      assert s[|a|] == ' ';
    } else {
      assert s[|a| + i] == b[i - 1];
      DollarsBehindSpace(a, b, i - 1);
    }
  }

  /** The first break is right exactly when it does not end an odd run of dollars. */
  lemma FirstBreak(text: string, size: nat)
    requires Breakable(text, size)
    ensures Unescaped(text, size) <==> !OddDollars(text[..size])
  {
    BreakableIffUnescaped(text, size);
    CountIsOff(text, size);
    OnlyDollars(text, size);
  }

  /** Where piece k and the break behind it are in the whole text. */
  lemma {:induction false} PieceInWhole(pieces: seq<string>, k: nat)
    requires k < |pieces| - 1
    ensures var text, at := Join(pieces), BreakAt(pieces, k);
            && at < |text| && text[at] == ' ' && text[at - |pieces[k]|..at] == pieces[k]
            && (at == |pieces[k]| || text[at - |pieces[k]| - 1] == ' ')
  {
    var text, at := Join(pieces), BreakAt(pieces, k);
    var a, b := pieces[0], Join(pieces[1..]);
    assert text == a + " " + b;
    if k == 0 {
      assert text[0..|a|] == a;
    } else {
      PieceInWhole(pieces[1..], k - 1);
      var inner, n := BreakAt(pieces[1..], k - 1), |pieces[k]|;
      assert at == |a| + 1 + inner && pieces[k] == pieces[1..][k - 1];
      assert text[at - n..at] == b[inner - n..inner];
      assert text[at] == b[inner];
      if inner > n { assert text[at - n - 1] == b[inner - n - 1]; } else { assert text[at - n - 1] == ' '; }
    }
  }

  /** In the whole text, the break behind piece k is at a space that Ninja does not take as
      escaped exactly when the piece is not an odd run of dollars. */
  lemma {:induction false} BreakInWhole(pieces: seq<string>, k: nat, lead: nat, next: nat, width: int)
    requires Wrapped(pieces, lead, next, width) && k < |pieces| - 1
    ensures Unescaped(Join(pieces), BreakAt(pieces, k)) <==> !OddDollars(pieces[k])
  {
    hide Breakable, OddDollars, Bound;
    var text, at := Join(pieces), BreakAt(pieces, k);
    var a, b := pieces[0], Join(pieces[1..]);
    assert text == a + " " + b;
    PieceInWhole(pieces, k);
    if k == 0 {
      FirstBreak(text, |a|);
      assert text[..|a|] == a;
    } else {
      BreakInWhole(pieces[1..], k - 1, next, next, width);
      PieceInWhole(pieces[1..], k - 1);
      DollarsBehindSpace(a, b, BreakAt(pieces[1..], k - 1));
    }
  }

  lemma {:induction false} BreakBehindBreak(pieces: seq<string>, k: nat)
    requires 0 < k < |pieces|
    ensures BreakAt(pieces, k) == BreakAt(pieces, k - 1) + 1 + |pieces[k]|
  {
    if k > 1 { BreakBehindBreak(pieces[1..], k - 1); }
  }

  /** A break at a space that is right in the whole text is one at which the writer may
      break the whole text, too. */
  lemma BreakableInWhole(pieces: seq<string>, k: nat, lead: nat, next: nat, width: int)
    requires Wrapped(pieces, lead, next, width) && k < |pieces| - 1 && (k == 0 || !OddDollars(pieces[k]))
    ensures Breakable(Join(pieces), BreakAt(pieces, k))
  {
    hide OddDollars, Bound;
    if k > 0 {
      var text, at := Join(pieces), BreakAt(pieces, k);
      PieceInWhole(pieces, 0);
      PieceInWhole(pieces, k);
      BreakInWhole(pieces, k, lead, next, width);
      BreakableIffUnescaped(text, at);
      OnlyDollars(text, at);
      BreaksInOrder(pieces, k);
    }
  }

  lemma {:induction false} BreaksInOrder(pieces: seq<string>, k: nat)
    requires 0 < k < |pieces|
    ensures BreakAt(pieces, 0) < BreakAt(pieces, k)
  {
  }

  /** An odd run of dollars broken off comes from an odd word of the text: from the first
      of the pieces in front of it that are odd runs, too. */
  lemma {:induction false} OddPieceFromOddWord(pieces: seq<string>, k: nat, lead: nat, next: nat, width: int)
    requires Wrapped(pieces, lead, next, width) && k < |pieces| - 1 && OddDollars(pieces[k])
    ensures !NoOddWord(Join(pieces))
  {
    hide Wrapped, Join, Breakable, OddDollars;
    var text, at := Join(pieces), BreakAt(pieces, k);
    PieceInWhole(pieces, k);
    assert |pieces[k]| > 0 by { OddIsNotEmpty(pieces[k]); }
    if k == 0 {
      assert OddWord(text, 0, at);
    } else if OddDollars(pieces[k - 1]) {
      OddPieceFromOddWord(pieces, k - 1, lead, next, width);
    } else {
      BreakBehindBreak(pieces, k);
      BreakableInWhole(pieces, k - 1, lead, next, width);
      assert OddWord(text, at - |pieces[k]|, at);
    }
  }

  lemma OddIsNotEmpty(p: string)
    requires OddDollars(p)
    ensures |p| > 0
  {
  }

  /** These are the pieces that `_line` writes. */
  predicate LinesOf(pieces: seq<string>, text: string, indent: nat, width: int) {
    Join(pieces) == text && Wrapped(pieces, 2 * indent, 2 * indent + 4, width)
  }

  lemma {:induction false} LastBreakable(text: string, n: nat) returns (size: int)
    requires n <= |text|
    ensures -1 <= size < n && (size >= 0 ==> Breakable(text, size))
    ensures forall j :: size < j < n ==> !Breakable(text, j)
  {
    if n == 0 {
      size := -1;
    } else if Breakable(text, n - 1) {
      size := n - 1;
    } else {
      size := LastBreakable(text, n - 1);
    }
  }

  lemma {:induction false} FirstBreakable(text: string, n: nat) returns (size: int)
    requires n <= |text| && exists j :: n <= j < |text| && Breakable(text, j)
    ensures n <= size < |text| && Breakable(text, size)
    ensures forall j :: n <= j < size ==> !Breakable(text, j)
    decreases |text| - n
  {
    if Breakable(text, n) { size := n; } else { size := FirstBreakable(text, n + 1); }
  }

  /** Every text has its lines. */
  lemma {:induction false} SomeLines(text: string, lead: nat, next: nat, width: int) returns (pieces: seq<string>)
    ensures Join(pieces) == text && Wrapped(pieces, lead, next, width)
    decreases |text|
  {
    hide Breakable, Bound;
    if lead + |text| <= width || forall j :: 0 <= j < |text| ==> !Breakable(text, j) {
      pieces := [text];
    } else {
      var size := LastBreakable(text, Bound(width - lead - 2, |text|));
      if size < 0 { size := FirstBreakable(text, 0); }
      BreakableIsSpace(text, size);
      var rest := SomeLines(text[size + 1..], next, next, width);
      pieces := [text[..size]] + rest;
      assert pieces[1..] == rest;
      assert text == text[..size] + " " + text[size + 1..];
    }
  }

  lemma BreakableIsSpace(text: string, i: int)
    requires Breakable(text, i)
    ensures text[i] == ' '
  {
  }

  /** An odd run of dollars at the start is broken off where no space can be found before
      the limit. */
  lemma OddStartBrokenOff(text: string, d: nat, pieces: seq<string>, lead: nat, next: nat, width: int)
    requires d < |text| && text[d] == ' ' && OddDollars(text[..d])
    requires Join(pieces) == text && Wrapped(pieces, lead, next, width)
    requires lead + |text| > width && Bound(width - lead - 2, |text|) <= d
    ensures |pieces| > 1 && pieces[0] == text[..d]
  {
    hide Bound;
    forall j | 0 <= j < d ensures text[j] == '$' { assert text[..d][j] == '$'; }
    OnlyDollars(text, d);
    CountIsOff(text, d);
    assert Breakable(text, d);
    assert |pieces| > 1;
    assert text == pieces[0] + " " + Join(pieces[1..]);
    assert |pieces[0]| == d;
  }

  /** A line is broken right before an odd word when the limit is right there. */
  lemma BrokenBefore(text: string, i: nat, pieces: seq<string>, lead: nat, next: nat, width: int)
    requires 0 < i < |text| && Breakable(text, i - 1) && text[i] != ' '
    requires Join(pieces) == text && Wrapped(pieces, lead, next, width)
    requires lead + |text| > width && i <= Bound(width - lead - 2, |text|) <= i + 1
    ensures |pieces| > 1 && pieces[0] == text[..i - 1] && Join(pieces[1..]) == text[i..]
  {
    hide CountDollars, Bound;
    assert |pieces| > 1;
    assert text == pieces[0] + " " + Join(pieces[1..]);
    assert |pieces[0]| == i - 1;
  }

  /** Whatever the width, an odd word is broken off at some indent. */
  lemma OddWordBroken(text: string, i: nat, j: nat, width: nat)
    returns (indent: nat, pieces: seq<string>, k: nat)
    requires OddWord(text, i, j)
    ensures LinesOf(pieces, text, indent, width) && k < |pieces| - 1 && !Unescaped(text, BreakAt(pieces, k))
  {
    hide Wrapped, Join, Breakable, OddDollars, Unescaped;
    indent := (width - 2 + |text| - i) / 2;
    var lead, next := 2 * indent, 2 * indent + 4;
    pieces := SomeLines(text, lead, next, width);
    k := if i == 0 then 0 else 1;
    assert text[i] == '$' by { OddStartsWithDollar(text, i, j); }
    if i == 0 {
      OddStartBrokenOff(text, j, pieces, lead, next, width);
      assert text[..j] == text[i..j];
    } else {
      BrokenBefore(text, i, pieces, lead, next, width);
      var rest := text[i..];
      assert rest[..j - i] == text[i..j];
      WrappedRest(pieces, lead, next, width);
      OddStartBrokenOff(rest, j - i, pieces[1..], next, next, width);
    }
    BreakInWhole(pieces, k, lead, next, width);
  }

  lemma OddStartsWithDollar(text: string, i: nat, j: nat)
    requires i <= j <= |text| && OddDollars(text[i..j])
    ensures i < j && text[i] == '$'
  {
    assert text[i..j][0] == '$';
  }

  lemma WrappedRest(pieces: seq<string>, lead: nat, next: nat, width: int)
    requires Wrapped(pieces, lead, next, width) && |pieces| > 1
    ensures Wrapped(pieces[1..], next, next, width)
  {
  }

  /** At this width no indent makes the writer break an escaped space of the text. */
  ghost predicate EscapesKept(text: string, width: int) {
    forall indent: nat, pieces: seq<string>, k: nat | LinesOf(pieces, text, indent, width) && k < |pieces| - 1 ::
      Unescaped(text, BreakAt(pieces, k))
  }

  /** That is so exactly for the texts without an odd word. */
  lemma EscapesKeptExactly(text: string, width: nat)
    ensures EscapesKept(text, width) <==> NoOddWord(text)
  {
    hide Wrapped, Join, Unescaped, OddWord;
    if NoOddWord(text) {
      forall indent: nat, pieces: seq<string>, k: nat | LinesOf(pieces, text, indent, width) && k < |pieces| - 1
        ensures Unescaped(text, BreakAt(pieces, k))
      {
        BreakUnescaped(pieces, k, 2 * indent, 2 * indent + 4, width);
      }
    } else {
      var i, j :| OddWord(text, i, j);
      OddWordInText(text, i, j);
      var indent, pieces, k := OddWordBroken(text, i, j, width);
    }
  }

  lemma OddWordInText(text: string, i: int, j: int)
    requires OddWord(text, i, j)
    ensures 0 <= i < j
  {
  }

  /** Without an odd word, every break is at an unescaped space, at any width. */
  lemma BreakUnescaped(pieces: seq<string>, k: nat, lead: nat, next: nat, width: int)
    requires Wrapped(pieces, lead, next, width) && k < |pieces| - 1 && NoOddWord(Join(pieces))
    ensures Unescaped(Join(pieces), BreakAt(pieces, k))
  {
    hide Wrapped, Unescaped, Join, OddDollars, OddWord;
    BreakInWhole(pieces, k, lead, next, width);
    if OddDollars(pieces[k]) { OddPieceFromOddWord(pieces, k, lead, next, width); }
  }

  // ---------------------------------------------------------------- the lines written so far

  /** `done` are the pieces broken off so far, `rest` is what is left of the text. */
  predicate Broken(done: seq<string>, rest: string, lead: nat, next: nat, width: int) {
    |done| > 0 ==>
      WellBroken(Join(done + [rest]), |done[0]|, lead, width) && Broken(done[1..], rest, next, next, width)
  }

  function RenderDone(done: seq<string>, lead: string, next: string): string {
    if |done| == 0 then "" else lead + done[0] + " $\n" + RenderDone(done[1..], next, next)
  }

  lemma JoinCons(p: string, pieces: seq<string>)
    requires |pieces| > 0
    ensures Join([p] + pieces) == p + " " + Join(pieces)
  {
    assert ([p] + pieces)[1..] == pieces;
  }

  lemma {:induction false} JoinSplit(done: seq<string>, p: string, rest: string)
    ensures Join(done + [p] + [rest]) == Join(done + [p + " " + rest])
  {
    if |done| == 0 {
      assert done + [p] + [rest] == [p] + [rest] && done + [p + " " + rest] == [p + " " + rest];
      JoinCons(p, [rest]);
    } else {
      JoinSplit(done[1..], p, rest);
      assert done + [p] + [rest] == [done[0]] + (done[1..] + [p] + [rest]);
      assert done + [p + " " + rest] == [done[0]] + (done[1..] + [p + " " + rest]);
      JoinCons(done[0], done[1..] + [p] + [rest]);
      JoinCons(done[0], done[1..] + [p + " " + rest]);
    }
  }

  lemma {:induction false} BreakOff(done: seq<string>, text: string, size: nat, lead: nat, next: nat, width: int)
    requires Broken(done, text, lead, next, width) && size < |text| && text[size] == ' '
    requires WellBroken(text, size, if |done| == 0 then lead else next, width)
    ensures Broken(done + [text[..size]], text[size + 1..], lead, next, width)
    ensures Join(done + [text[..size]] + [text[size + 1..]]) == Join(done + [text])
  {
    hide WellBroken;
    var p, rest := text[..size], text[size + 1..];
    assert text == p + " " + rest;
    JoinSplit(done, p, rest);
    if |done| == 0 {
      assert done + [p] == [p] && done + [text] == [text];
      assert [p][1..] == [];
    } else {
      BreakOff(done[1..], text, size, next, next, width);
      assert (done + [p])[1..] == done[1..] + [p];
    }
  }

  lemma {:induction false} RenderBreakOff(done: seq<string>, p: string, lead: string, next: string)
    ensures RenderDone(done + [p], lead, next)
         == RenderDone(done, lead, next) + (if |done| == 0 then lead else next) + p + " $\n"
  {
    if |done| == 0 {
      assert done + [p] == [p] && [p][1..] == [];
    } else {
      RenderBreakOff(done[1..], p, next, next);
      assert (done + [p])[1..] == done[1..] + [p];
    }
  }

  /** The last line ends the text. */
  lemma {:induction false} Finish(done: seq<string>, rest: string, lead: nat, next: nat, width: int)
    requires Broken(done, rest, lead, next, width)
    requires Wrapped([rest], if |done| == 0 then lead else next, next, width)
    ensures Wrapped(done + [rest], lead, next, width)
  {
    hide WellBroken, Breakable, Join;
    var pieces := done + [rest];
    if |done| == 0 {
      assert pieces == [rest];
    } else {
      Finish(done[1..], rest, next, next, width);
      assert pieces[0] == done[0] && pieces[1..] == done[1..] + [rest] && |pieces| > 1;
    }
  }

  lemma {:induction false} FinishRender(done: seq<string>, rest: string, lead: string, next: string)
    ensures Render(done + [rest], lead, next)
         == RenderDone(done, lead, next) + (if |done| == 0 then lead else next) + rest + "\n"
  {
    if |done| == 0 {
      assert done + [rest] == [rest];
    } else {
      FinishRender(done[1..], rest, next, next);
      assert (done + [rest])[1..] == done[1..] + [rest];
    }
  }

  class Writer {
    const width: int
    var output: string

    constructor (width: int)
      ensures this.width == width && output == ""
    {
      this.width, output := width, "";
    }

    /** The search of `_line` for a place to break. */
    method FindBreak(text: string, lead: nat) returns (space: int)
      requires lead + |text| > width
      ensures -1 <= space < |text|
      ensures space >= 0 ==> text[space] == ' ' && WellBroken(text, space, lead, width)
      ensures space < 0 ==> forall j :: 0 <= j < |text| ==> !Breakable(text, j)
    {
      var availableSpace := width - lead - |" $"|;
      space := BreakBefore(text, availableSpace);
      if space < 0 {
        space := BreakAfter(text, availableSpace);
      }
    }

    /** The loop of `_line`: the pieces written, joined by single spaces, are the text. */
    method BreakUp(text: string, indent: nat) returns (ghost pieces: seq<string>)
      modifies this
      ensures Join(pieces) == text
      ensures Wrapped(pieces, 2 * indent, 2 * indent + 4, width)
      ensures output == old(output) + Render(pieces, Spaces(indent), Spaces(indent + 2))
    {
      hide Breakable, WellBroken, Bound, Spaces, Broken, Join, Render, RenderDone;
      var leadingSpace, rest := Spaces(indent), text;
      ghost var done: seq<string>, lead, next := [], 2 * indent, 2 * indent + 4;
      StartOf(text, lead, next, width, Spaces(indent), Spaces(indent + 2));
      while |leadingSpace| + |rest| > width
        invariant leadingSpace == if |done| == 0 then Spaces(indent) else Spaces(indent + 2)
        invariant Join(done + [rest]) == text && Broken(done, rest, lead, next, width)
        invariant output == old(output) + RenderDone(done, Spaces(indent), Spaces(indent + 2))
        decreases |rest|
      {
        var space := FindBreak(rest, |leadingSpace|);
        if space < 0 { break; }
        BreakOff(done, rest, space, lead, next, width);
        RenderBreakOff(done, rest[..space], Spaces(indent), Spaces(indent + 2));
        done := done + [rest[..space]];
        output := output + (leadingSpace + rest[..space] + " $\n");
        rest := rest[space + 1..];
        leadingSpace := Spaces(indent + 2);
      }
      Finish(done, rest, lead, next, width);
      FinishRender(done, rest, Spaces(indent), Spaces(indent + 2));
      output := output + (leadingSpace + rest + "\n");
      pieces := done + [rest];
    }

    /** `_line`: nothing is lost, every break is the one that the width asks for, and a break
        is at a space escaped in the whole text exactly behind an odd run of dollars. */
    method Line(text: string, indent: nat) returns (ghost pieces: seq<string>)
      modifies this
      ensures Join(pieces) == text
      ensures Wrapped(pieces, 2 * indent, 2 * indent + 4, width)
      ensures output == old(output) + Render(pieces, Spaces(indent), Spaces(indent + 2))
      ensures forall k :: 0 <= k < |pieces| - 1 ==>
        (Unescaped(text, BreakAt(pieces, k)) <==> !OddDollars(pieces[k]))
      ensures NoOddWord(text) ==>
        forall k :: 0 <= k < |pieces| - 1 ==> Unescaped(text, BreakAt(pieces, k))
    {
      hide *;
      pieces := BreakUp(text, indent);
      WholeBreaks(pieces, 2 * indent, 2 * indent + 4, width);
    }
  }

  lemma WholeBreaks(pieces: seq<string>, lead: nat, next: nat, width: int)
    requires Wrapped(pieces, lead, next, width)
    ensures forall k :: 0 <= k < |pieces| - 1 ==>
      (Unescaped(Join(pieces), BreakAt(pieces, k)) <==> !OddDollars(pieces[k]))
    ensures NoOddWord(Join(pieces)) ==>
      forall k :: 0 <= k < |pieces| - 1 ==> Unescaped(Join(pieces), BreakAt(pieces, k))
  {
    hide Wrapped, Unescaped, OddDollars, NoOddWord;
    forall k | 0 <= k < |pieces| - 1
      ensures Unescaped(Join(pieces), BreakAt(pieces, k)) <==> !OddDollars(pieces[k])
    {
      BreakInWhole(pieces, k, lead, next, width);
    }
    if NoOddWord(Join(pieces)) {
      forall k | 0 <= k < |pieces| - 1 ensures Unescaped(Join(pieces), BreakAt(pieces, k)) {
        BreakUnescaped(pieces, k, lead, next, width);
      }
    }
  }

  /** A run that breaks an escaped space. */
  method BreakEscapedSpace() returns (output: string)
    ensures output == "$ $\n    x\n" && !Unescaped("$ x", 1)
  {
    var w := new Writer(2);
    ghost var pieces := w.Line("$ x", 0);
    TwoPieces(pieces);
    output := w.output;
  }

  lemma TwoPieces(pieces: seq<string>)
    requires Join(pieces) == "$ x" && Wrapped(pieces, 0, 4, 2)
    ensures pieces == ["$", "x"] && Render(pieces, Spaces(0), Spaces(2)) == "$ $\n    x\n"
    ensures !Unescaped("$ x", 1)
  {
    EscapedSpaceBroken();
    assert |pieces| > 1;
    var p := |pieces[0]|;
    assert Breakable("$ x", p) && p == 1;
    var s := pieces[0] + " " + Join(pieces[1..]);
    assert "$ x" == s && s[p + 1..] == Join(pieces[1..]) && "$ x"[2..] == "x";
    assert pieces[0] == "$" && Join(pieces[1..]) == "x";
    assert |pieces[1..]| == 1;
    assert pieces == ["$", "x"];
  }

  lemma StartOf(text: string, lead: nat, next: nat, width: int, leading: string, following: string)
    ensures Join([] + [text]) == text && Broken([], text, lead, next, width)
    ensures RenderDone([], leading, following) == ""
  {
    assert [] + [text] == [text];
  }

  // ---------------------------------------------------------------- escaping and expansion

  /** `str.replace("$", "$$")`. */
  function DoubleDollars(s: string): string {
    if |s| == 0 then "" else (if s[0] == '$' then "$$" else [s[0]]) + DoubleDollars(s[1..])
  }

  /** `escape`, which refuses text with a newline. */
  function Escape(s: string): Option<string> {
    if '\n' in s then None else Some(DoubleDollars(s))
  }

  /** How many of the first characters of s are word characters. */
  function WordLength(s: string, isWord: char -> bool): (n: nat)
    ensures n <= |s|
  {
    if |s| == 0 || !isWord(s[0]) then 0 else 1 + WordLength(s[1..], isWord)
  }

  function Lookup(name: string, vars: map<string, string>, localVars: map<string, string>): string {
    if name in localVars then localVars[name] else if name in vars then vars[name] else ""
  }

  /** `expand`: each dollar starts `$$` or a name of word characters, possibly empty. */
  function Expand(s: string, vars: map<string, string>, localVars: map<string, string>, isWord: char -> bool): string
    decreases |s|
  {
    if |s| == 0 then ""
    else if s[0] != '$' then [s[0]] + Expand(s[1..], vars, localVars, isWord)
    else if |s| > 1 && s[1] == '$' then "$" + Expand(s[2..], vars, localVars, isWord)
    else
      var n := WordLength(s[1..], isWord);
      Lookup(s[1..n + 1], vars, localVars) + Expand(s[n + 1..], vars, localVars, isWord)
  }

  /** A reference stands for the local variable of its name, else for the global one, else
      for nothing; what follows is expanded on its own. */
  lemma ExpandReference(name: string, rest: string, vars: map<string, string>, localVars: map<string, string>,
                        isWord: char -> bool)
    requires forall k :: 0 <= k < |name| ==> isWord(name[k]) && name[k] != '$'
    requires rest == "" || (!isWord(rest[0]) && (name == "" ==> rest[0] != '$'))
    ensures var text := Expand("$" + name + rest, vars, localVars, isWord);
      var after := Expand(rest, vars, localVars, isWord);
      && (name in localVars ==> text == localVars[name] + after)
      && (name !in localVars && name in vars ==> text == vars[name] + after)
      && (name !in localVars && name !in vars ==> text == after)
  {
    var s := "$" + name + rest;
    assert s[1..] == name + rest;
    WordLengthOf(name, rest, isWord);
    assert s[1..|name| + 1] == name && s[|name| + 1..] == rest;
  }

  lemma {:induction false} WordLengthOf(name: string, rest: string, isWord: char -> bool)
    requires forall k :: 0 <= k < |name| ==> isWord(name[k])
    requires rest == "" || !isWord(rest[0])
    ensures WordLength(name + rest, isWord) == |name|
  {
    if name == "" {
      assert name + rest == rest;
    } else {
      assert (name + rest)[1..] == name[1..] + rest;
      WordLengthOf(name[1..], rest, isWord);
    }
  }

  /** Escaped text stands for itself wherever it is embedded, under any variables. */
  lemma ExpandEscape(s: string, rest: string, vars: map<string, string>, localVars: map<string, string>,
                     isWord: char -> bool)
    ensures Escape(s).Some? <==> '\n' !in s
    ensures Escape(s).Some? ==>
      Expand(Escape(s).value + rest, vars, localVars, isWord) == s + Expand(rest, vars, localVars, isWord)
    ensures Escape(s).Some? ==> Expand(Escape(s).value, vars, localVars, isWord) == s
  {
    ExpandDoubled(s, rest, vars, localVars, isWord);
    ExpandDoubled(s, "", vars, localVars, isWord);
    assert DoubleDollars(s) + "" == DoubleDollars(s);
  }

  /** One escaped character in front of other text. */
  lemma ExpandOne(c: char, rest: string, vars: map<string, string>, localVars: map<string, string>,
                  isWord: char -> bool)
    ensures Expand(DoubleDollars([c]) + rest, vars, localVars, isWord) == [c] + Expand(rest, vars, localVars, isWord)
  {
    assert [c][1..] == "" && DoubleDollars([c]) == if c == '$' then "$$" else [c];
    var d := DoubleDollars([c]) + rest;
    if c == '$' { assert d[2..] == rest; } else { assert d[1..] == rest; }
  }

  lemma DoubledCons(c: char, t: string)
    ensures DoubleDollars([c] + t) == DoubleDollars([c]) + DoubleDollars(t)
    ensures DoubleDollars("") == ""
  {
    assert ([c] + t)[1..] == t && [c][1..] == "";
  }

  lemma {:induction false} ExpandDoubled(s: string, rest: string, vars: map<string, string>,
                                         localVars: map<string, string>, isWord: char -> bool)
    ensures Expand(DoubleDollars(s) + rest, vars, localVars, isWord) == s + Expand(rest, vars, localVars, isWord)
  {
    hide Expand, DoubleDollars;
    var x := Expand(rest, vars, localVars, isWord);
    if |s| == 0 {
      DoubledCons('$', "");
      assert s == "" && DoubleDollars("") + rest == rest && "" + x == x;
    } else {
      var c, t := s[0], s[1..];
      ExpandDoubled(t, rest, vars, localVars, isWord);
      ExpandOne(c, DoubleDollars(t) + rest, vars, localVars, isWord);
      DoubledCons(c, t);
      assert s == [c] + t;
      Associate(DoubleDollars([c]), DoubleDollars(t), rest);
      Associate([c], t, x);
    }
  }

  lemma Associate(a: string, b: string, c: string)
    ensures (a + b) + c == a + (b + c)
  {
  }
}
