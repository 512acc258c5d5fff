/** Where hex_get_byte finds a byte, line by line. */
module HexLines {
  import opened Hex
  import opened Wrappers

  lemma {:induction false} StrchrSkips(text: string, r: nat, t: nat, c: char)
    requires r <= t <= |text| && Lacks(text, r, t, c)
    ensures Strchr(text, r, c) == Strchr(text, t, c)
    decreases t - r
  {
    if r < t {
      StrchrSkips(text, r + 1, t, c);
    }
  }

  /** The places where a line is looked at: a position inside the first line, and in each later line
      the one behind the first colon that follows the line break, if there is any. */
  function Place(text: string, s: nat, k: nat): (r: Option<nat>)
    requires s <= |text|
    ensures r.Some? ==> s <= r.value <= |text|
    decreases k
  {
    if k == 0 then Some(s) else
    match Place(text, s, k - 1)
    case None => None
    case Some(r) => NextPlace(text, r)
  }

  function NextPlace(text: string, r: nat): (n: Option<nat>)
    requires r <= |text|
    ensures n.Some? ==> r < n.value <= |text|
  {
    match Strchr(text, r, '\n')
    case None => None
    case Some(n) => Some(AfterColon(text, n + 1))
  }

  /** The white space at the head of the line at r ends at b, and the digits at t follow it or an
      optional 0x. */
  ghost predicate Behind(text: string, r: nat, b: nat, t: nat) {
    && r <= b <= |text| && Blank(text, r, b) && !IsSpace(At(text, b))
    && t == (if b + 1 < |text| && text[b] == '0' && text[b + 1] == 'x' then b + 2 else b)
    && t + 1 < |text| && IsXDigit(text[t]) && IsXDigit(text[t + 1])
  }

  /** The digits at t are those of the line at r. */
  ghost predicate ByteOn(text: string, r: nat, t: nat) {
    exists b :: Behind(text, r, b, t)
  }

  ghost predicate NoByteOn(text: string, r: nat) {
    forall t: nat :: !ByteOn(text, r, t)
  }

  lemma BlankEnds(text: string, r: nat, b: nat, c: nat)
    requires r <= b <= |text| && r <= c <= |text| && Blank(text, r, b) && Blank(text, r, c)
    requires !IsSpace(At(text, b)) || At(text, b) == '\n'
    requires !IsSpace(At(text, c)) || At(text, c) == '\n'
    ensures b == c
  {
  }

  /** The end of the white space at the head of a line. */
  function BlankEnd(text: string, r: nat): (b: nat)
    requires r <= |text|
    ensures r <= b <= |text| && Blank(text, r, b) && (!IsSpace(At(text, b)) || At(text, b) == '\n')
    decreases |text| - r
  {
    if IsSpace(At(text, r)) && At(text, r) != '\n' then BlankEnd(text, r + 1) else r
  }

  /** What FindByte makes of one line. */
  lemma FindOnLine(text: string, r: nat)
    requires r <= |text|
    ensures var t := FindByte(text, r);
      || (t.Some? && ByteOn(text, r, t.value))
      || (NoByteOn(text, r) && t == match NextPlace(text, r) case None => None case Some(n) => FindByte(text, n))
  {
    var b := BlankEnd(text, r);
    SkipBlank(text, r, b);
    if At(text, b) == '\n' {
      FirstBreak(text, r, b);
      FindBreak(text, b);
      NothingOnBlankLine(text, r, b);
    } else {
      FindBehindBlank(text, r, b);
    }
  }

  lemma NothingOnBlankLine(text: string, r: nat, b: nat)
    requires r <= b < |text| && Blank(text, r, b) && text[b] == '\n'
    ensures NoByteOn(text, r)
  {
    forall t: nat ensures !ByteOn(text, r, t) {
      if c :| Behind(text, r, c, t) {
        BlankEnds(text, r, b, c);
      }
    }
  }

  /** There is a next line exactly if there is a line break. */
  lemma LastPlace(text: string, r: nat)
    requires r <= |text|
    ensures NextPlace(text, r) == None <==> Lacks(text, r, |text|, '\n')
  {
    StrchrIsFirst(text, r, '\n');
  }

  /** The next line begins behind the first line break. */
  lemma FirstBreak(text: string, r: nat, b: nat)
    requires r <= b < |text| && Lacks(text, r, b, '\n') && text[b] == '\n'
    ensures NextPlace(text, r) == Some(AfterColon(text, b + 1))
  {
    StrchrSkips(text, r, b, '\n');
  }

  lemma FindBehindBlank(text: string, r: nat, b: nat)
    requires r <= b <= |text| && Blank(text, r, b) && !IsSpace(At(text, b))
    ensures var t := FindByte(text, r);
      || (t.Some? && ByteOn(text, r, t.value))
      || (NoByteOn(text, r) && t == match NextPlace(text, r) case None => None case Some(n) => FindByte(text, n))
  {
    SkipBlank(text, r, b);
    var t := SkipPrefix(text, b);
    if TwoDigits(text, t) {
      assert Behind(text, r, b, t);
    } else {
      NothingBehindBlank(text, r, b);
      NextBehindBlank(text, r, b);
    }
  }

  lemma NextBehindBlank(text: string, r: nat, b: nat)
    requires r <= b <= |text| && Blank(text, r, b) && !IsSpace(At(text, b)) && !TwoDigits(text, SkipPrefix(text, b))
    ensures FindByte(text, b) == match NextPlace(text, r) case None => None case Some(n) => FindByte(text, n)
  {
    NoBreakBefore(text, r, b);
    StrchrSkips(text, r, SkipPrefix(text, b), '\n');
    FindByteStep(text, b);
  }

  lemma NoBreakBefore(text: string, r: nat, b: nat)
    requires r <= b <= |text| && Blank(text, r, b)
    ensures Lacks(text, r, SkipPrefix(text, b), '\n')
  {
  }

  lemma FindByteStep(text: string, b: nat)
    requires b <= |text| && !IsSpace(At(text, b)) && !TwoDigits(text, SkipPrefix(text, b))
    ensures FindByte(text, b) == match Strchr(text, SkipPrefix(text, b), '\n')
                                 case None => None
                                 case Some(n) => FindByte(text, AfterColon(text, n + 1))
  {
  }

  /** On the last line, a byte is found exactly if there are two digits behind the white space, or behind
      a prefix 0x that follows it. */
  lemma LastLine(text: string, s: nat, r: nat)
    requires s <= r <= |text| && Blank(text, s, r) && !IsSpace(At(text, r)) && Lacks(text, r, |text|, '\n')
    ensures var t := SkipPrefix(text, r); FindByte(text, s) == if TwoDigits(text, t) then Some(t) else None
  {
    SkipBlank(text, s, r);
    if !TwoDigits(text, SkipPrefix(text, r)) {
      FindByteStep(text, r);
      StrchrIsFirst(text, SkipPrefix(text, r), '\n');
    }
  }

  lemma NothingBehindBlank(text: string, r: nat, b: nat)
    requires r <= b <= |text| && Blank(text, r, b) && !IsSpace(At(text, b)) && !TwoDigits(text, SkipPrefix(text, b))
    ensures NoByteOn(text, r)
  {
    forall t: nat ensures !ByteOn(text, r, t) {
      if c :| Behind(text, r, c, t) {
        BlankEnds(text, r, b, c);
      }
    }
  }

  lemma OneByteOnLine(text: string, r: nat, t: nat, u: nat)
    requires ByteOn(text, r, t) && ByteOn(text, r, u)
    ensures t == u
  {
    var b :| Behind(text, r, b, t);
    var c :| Behind(text, r, c, u);
    BlankEnds(text, r, b, c);
  }

  lemma {:induction false} PlaceShift(text: string, s: nat, n: nat, k: nat)
    requires s <= |text| && NextPlace(text, s) == Some(n)
    ensures Place(text, s, k + 1) == Place(text, n, k)
  {
    PlaceStep(text, s, k);
    if k > 0 {
      PlaceShift(text, s, n, k - 1);
      PlaceStep(text, n, k - 1);
    }
  }

  lemma PlaceStep(text: string, s: nat, k: nat)
    requires s <= |text|
    ensures Place(text, s, k + 1) == match Place(text, s, k) case None => None case Some(r) => NextPlace(text, r)
  {
  }

  lemma {:induction false} NoMorePlaces(text: string, s: nat, k: nat)
    requires s <= |text| && NextPlace(text, s) == None
    ensures Place(text, s, k + 1) == None
  {
    if k > 0 {
      NoMorePlaces(text, s, k - 1);
    }
  }

  /** The line number k is the first that has a byte. */
  ghost predicate FirstOn(text: string, s: nat, k: nat, t: nat)
    requires s <= |text|
  {
    && Place(text, s, k).Some? && ByteOn(text, Place(text, s, k).value, t)
    && forall j: nat :: j < k ==> Place(text, s, j).Some? && NoByteOn(text, Place(text, s, j).value)
  }

  ghost predicate NoneHasByte(text: string, s: nat)
    requires s <= |text|
  {
    forall k: nat :: Place(text, s, k).Some? ==> NoByteOn(text, Place(text, s, k).value)
  }

  lemma FirstOnNext(text: string, s: nat, n: nat, k: nat, t: nat)
    requires s <= |text| && NextPlace(text, s) == Some(n) && NoByteOn(text, s) && FirstOn(text, n, k, t)
    ensures FirstOn(text, s, k + 1, t)
  {
    PlaceShift(text, s, n, k);
    forall j: nat | j < k + 1 ensures Place(text, s, j).Some? && NoByteOn(text, Place(text, s, j).value) {
      if j > 0 {
        PlaceShift(text, s, n, j - 1);
      }
    }
  }

  lemma NoneOnNext(text: string, s: nat, n: nat)
    requires s <= |text| && NextPlace(text, s) == Some(n) && NoByteOn(text, s) && NoneHasByte(text, n)
    ensures NoneHasByte(text, s)
  {
    forall k: nat | Place(text, s, k).Some? ensures NoByteOn(text, Place(text, s, k).value) {
      if k > 0 {
        PlaceShift(text, s, n, k - 1);
      }
    }
  }

  lemma {:induction false} FindsFirst(text: string, s: nat)
    requires s <= |text|
    ensures match FindByte(text, s)
            case Some(t) => exists k: nat :: FirstOn(text, s, k, t)
            case None => NoneHasByte(text, s)
    decreases |text| - s
  {
    FindOnLine(text, s);
    if !NoByteOn(text, s) {
      assert FirstOn(text, s, 0, FindByte(text, s).value);
    } else {
      match NextPlace(text, s)
      case None =>
        forall k: nat | k > 0 ensures Place(text, s, k) == None {
          NoMorePlaces(text, s, k - 1);
        }
      case Some(n) =>
        FindsFirst(text, n);
        if FindByte(text, n).Some? {
          var k: nat :| FirstOn(text, n, k, FindByte(text, n).value);
          FirstOnNext(text, s, n, k, FindByte(text, n).value);
        } else {
          NoneOnNext(text, s, n);
        }
    }
  }

  /** A byte is found exactly if some line has one, and then it is the one of the first such line. */
  lemma FirstLineWithByte(text: string, s: nat, t: nat)
    requires s <= |text|
    ensures FindByte(text, s) == Some(t) <==> exists k: nat :: FirstOn(text, s, k, t)
    ensures FindByte(text, s) == None <==> NoneHasByte(text, s)
  {
    FindsFirst(text, s);
    if k: nat :| FirstOn(text, s, k, t) {
      var u := FindByte(text, s).value;
      var j: nat :| FirstOn(text, s, j, u);
      assert j == k;
      OneByteOnLine(text, Place(text, s, k).value, t, u);
    }
  }

  /** The colon that is looked for need not be on the line where the search begins: whatever comes before
      the first colon is lost, whole lines of bytes included. */
  lemma LostBeforeColon(text: string, s: nat, q: nat)
    requires s <= q < |text| && text[q] == ':' && Lacks(text, s, q, ':')
    ensures AfterColon(text, s) == q + 1
    ensures forall t :: FindByte(text, AfterColon(text, s)) == Some(t) ==> t > q
  {
    StrchrSkips(text, s, q, ':');
  }

  /** Here that is the byte 41 on the first line. */
  lemma LineLost()
    ensures ByteOn("41\n0:42", 0, 0)
    ensures Start("41\n0:42", Some(0), None) == Some(5) && FindByte("41\n0:42", 5) == Some(5)
  {
    var text := "41\n0:42";
    assert Behind(text, 0, 0, 0);
    LostBeforeColon(text, 0, 4);
  }
}
