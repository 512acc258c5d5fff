/** What the hex printer and the hex parser promise each other. */
module HexRoundTrip {
  import opened Hex
  import opened Words
  import opened Wrappers

  /** The cursor that a call leaves. */
  function Cursor(t: Option<nat>): Option<nat> {
    if t.None? then None else Some(t.value + 2)
  }

  /** Where a call with a null string finds its byte. */
  function Found(text: string, p: Option<nat>): (t: Option<nat>)
    requires p.Some? ==> p.value <= |text|
    ensures t.Some? ==> t.value + 2 <= |text| && TwoDigits(text, t.value)
  {
    if p.None? then None else FindByte(text, p.value)
  }

  /** The cursor after n calls with a null string. */
  function CursorAfter(text: string, p: Option<nat>, n: nat): (r: Option<nat>)
    requires p.Some? ==> p.value <= |text|
    ensures r.Some? ==> r.value <= |text|
    decreases n
  {
    if n == 0 then p else Cursor(Found(text, CursorAfter(text, p, n - 1)))
  }

  /** What call number n returns, counting from zero. */
  function Returned(text: string, p: Option<nat>, n: nat): int
    requires p.Some? ==> p.value <= |text|
  {
    Result(text, Found(text, CursorAfter(text, p, n)))
  }

  lemma {:induction false} TextPlain(bytes: seq<Byte>, i: nat)
    requires i <= |bytes|
    ensures Lacks(Text(bytes, i), 0, |Text(bytes, i)|, ':')
    decreases |bytes| - i
  {
    if i < |bytes| {
      NibbleOfHexChar(bytes[i] / 16);
      NibbleOfHexChar(bytes[i] % 16);
      TextPlain(bytes, i + 1);
    }
  }

  lemma NoColon(text: string, s: nat)
    requires Lacks(text, 0, |text|, ':') && s <= |text|
    ensures AfterColon(text, s) == s
  {
    FirstColon(text, s);
  }

  // ---------- the layout of the printed text ----------

  /** Where the digits of byte i are: two for each byte before it and a line break after every sixteen. */
  function Offset(i: nat): nat {
    2 * i + i / 16
  }

  /** Every line but the last has sixteen bytes, and every line ends with a line break. */
  function PrintedSize(n: nat): nat {
    Offset(n) + if n % 16 == 0 then 0 else 1
  }

  ghost predicate PrintedAt(text: string, off: int, b: Byte, last: bool) {
    && 0 <= off && off + (if last then 2 else 1) < |text|
    && text[off] == HexChar(b / 16) && text[off + 1] == HexChar(b % 16) && (last ==> text[off + 2] == '\n')
  }

  /** Byte i is the last one of its line. */
  predicate EndsLine(bytes: seq<Byte>, i: nat) {
    i % 16 == 15 || i + 1 == |bytes|
  }

  ghost predicate Printed(text: string, bytes: seq<Byte>) {
    && |text| == PrintedSize(|bytes|)
    && (forall i :: 0 <= i < |bytes| ==> PrintedAt(text, Offset(i), bytes[i], EndsLine(bytes, i)))
    && Lacks(text, 0, |text|, ':')
  }

  lemma OffsetStep(bytes: seq<Byte>, i: nat)
    requires i < |bytes|
    ensures var next := if i + 1 == |bytes| then PrintedSize(i + 1) else Offset(i + 1);
      next == Offset(i) + if EndsLine(bytes, i) then 3 else 2
  {
  }

  lemma ByteThenText(bytes: seq<Byte>, i: nat)
    requires i < |bytes|
    ensures PrintedAt(Text(bytes, i), 0, bytes[i], EndsLine(bytes, i))
    ensures Text(bytes, i + 1) == Text(bytes, i)[if EndsLine(bytes, i) then 3 else 2..]
  {
  }

  lemma {:induction false} TextSize(bytes: seq<Byte>, i: nat)
    requires i <= |bytes|
    ensures |Text(bytes, i)| == if i == |bytes| then 0 else PrintedSize(|bytes|) - Offset(i)
    decreases |bytes| - i
  {
    if i < |bytes| {
      ByteThenText(bytes, i);
      OffsetStep(bytes, i);
      TextSize(bytes, i + 1);
    }
  }

  lemma {:induction false} ByteInText(bytes: seq<Byte>, i: nat, j: nat)
    requires i <= j < |bytes|
    ensures PrintedAt(Text(bytes, i), Offset(j) - Offset(i), bytes[j], EndsLine(bytes, j))
    decreases j - i
  {
    ByteThenText(bytes, i);
    if i < j {
      OffsetStep(bytes, i);
      ByteInText(bytes, i + 1, j);
      var k := if EndsLine(bytes, i) then 3 else 2;
      PrintedBehind(Text(bytes, i), k, Offset(j) - Offset(i + 1), bytes[j], EndsLine(bytes, j));
    }
  }

  lemma PrintedBehind(text: string, k: nat, off: int, b: Byte, last: bool)
    requires k <= |text| && PrintedAt(text[k..], off, b, last)
    ensures PrintedAt(text, k + off, b, last)
  {
  }

  /** The printed text, character by character. */
  lemma TextLayout(bytes: seq<Byte>)
    ensures Printed(Text(bytes, 0), bytes)
  {
    TextSize(bytes, 0);
    forall i | 0 <= i < |bytes| ensures PrintedAt(Text(bytes, 0), Offset(i), bytes[i], EndsLine(bytes, i)) {
      ByteInText(bytes, 0, i);
    }
    TextPlain(bytes, 0);
  }

  // ---------- what the parser makes of it ----------

  /** The cursor is at the digits of byte i, or at the end of the text, or at the line break before that. */
  ghost predicate Left(text: string, s: nat, bytes: seq<Byte>, i: nat) {
    var next := if i < |bytes| then Offset(i) else |text|;
    i <= |bytes| && next <= |text| && (s == next || (s + 1 == next && text[s] == '\n'))
  }

  lemma DigitsOf(text: string, off: nat, b: Byte, last: bool)
    requires PrintedAt(text, off, b, last)
    ensures FindByte(text, off) == Some(off) && Value(text, off) == b
  {
    NibbleOfHexChar(b / 16);
    NibbleOfHexChar(b % 16);
  }

  lemma FindEnd(text: string)
    ensures FindByte(text, |text|) == None
  {
  }

  lemma FindPastBreak(text: string, s: nat)
    requires Lacks(text, 0, |text|, ':') && s < |text| && text[s] == '\n'
    ensures FindByte(text, s) == FindByte(text, s + 1)
  {
    FindBreak(text, s);
    NoColon(text, s + 1);
  }

  lemma FindNothing(text: string, s: nat, bytes: seq<Byte>)
    requires Printed(text, bytes) && Left(text, s, bytes, |bytes|)
    ensures FindByte(text, s) == None
  {
    if s < |text| {
      FindPastBreak(text, s);
    }
    FindEnd(text);
  }

  lemma FindNext(text: string, s: nat, bytes: seq<Byte>, i: nat)
    requires Printed(text, bytes) && i < |bytes| && Left(text, s, bytes, i)
    ensures FindByte(text, s) == Some(Offset(i)) && Value(text, Offset(i)) == bytes[i]
    ensures Left(text, Offset(i) + 2, bytes, i + 1)
  {
    if s < Offset(i) {
      FindPastBreak(text, s);
    }
    DigitsOf(text, Offset(i), bytes[i], EndsLine(bytes, i));
    OffsetStep(bytes, i);
  }

  lemma {:induction false} CursorAtByte(text: string, bytes: seq<Byte>, i: nat)
    requires Printed(text, bytes) && i <= |bytes|
    ensures var p := CursorAfter(text, Some(0), i); p.Some? && Left(text, p.value, bytes, i)
  {
    if i > 0 {
      CursorAtByte(text, bytes, i - 1);
      FindNext(text, CursorAfter(text, Some(0), i - 1).value, bytes, i - 1);
    }
  }

  /** Once there is nothing left, that stays so. */
  lemma {:induction false} NothingLeft(text: string, p: Option<nat>, n: nat, k: nat)
    requires (p.Some? ==> p.value <= |text|) && n <= k && Returned(text, p, n) == -1
    ensures Returned(text, p, k) == -1 && CursorAfter(text, p, k + 1) == None
    decreases k
  {
    if n < k {
      NothingLeft(text, p, n, k - 1);
    }
  }

  /** The parser, called first on the printed text and then with null, returns the bytes that were printed,
      and from then on -1. */
  lemma PrintThenParse(bytes: seq<Byte>, n: nat)
    ensures var text := Text(bytes, 0);
      Returned(text, Start(text, Some(0), None), n) == if n < |bytes| then bytes[n] as int else -1
  {
    var text := Text(bytes, 0);
    TextLayout(bytes);
    NoColon(text, 0);
    if n < |bytes| {
      CursorAtByte(text, bytes, n);
      FindNext(text, CursorAfter(text, Some(0), n).value, bytes, n);
    } else {
      CursorAtByte(text, bytes, |bytes|);
      FindNothing(text, CursorAfter(text, Some(0), |bytes|).value, bytes);
      NothingLeft(text, Some(0), |bytes|, n);
    }
  }

  /** What a call returns and leaves when i bytes have been read before. */
  ghost predicate Read(text: string, bytes: seq<Byte>, i: nat, b: int, p: Option<nat>)
    requires i <= |bytes|
  {
    if i == |bytes| then b == -1 && p == None
    else b == bytes[i] as int && p.Some? && Left(text, p.value, bytes, i + 1)
  }

  lemma NextCall(text: string, s: nat, bytes: seq<Byte>, i: nat)
    requires Printed(text, bytes) && Left(text, s, bytes, i)
    ensures var t := FindByte(text, s);
      Read(text, bytes, i, Result(text, t), Cursor(t))
  {
    if i == |bytes| {
      FindNothing(text, s, bytes);
    } else {
      FindNext(text, s, bytes, i);
    }
  }

  method ReadFirst(reader: Reader, ghost bytes: seq<Byte>) returns (b: int)
    requires Printed(reader.text, bytes) && reader.Valid()
    modifies reader
    ensures reader.Valid() && Read(reader.text, bytes, 0, b, reader.p)
  {
    NoColon(reader.text, 0);
    NextCall(reader.text, 0, bytes, 0);
    b := reader.GetByte(Some(0));
  }

  method ReadNext(reader: Reader, ghost bytes: seq<Byte>, ghost i: nat) returns (b: int)
    requires Printed(reader.text, bytes) && reader.Valid()
    requires reader.p.Some? && Left(reader.text, reader.p.value, bytes, i)
    modifies reader
    ensures reader.Valid() && Read(reader.text, bytes, i, b, reader.p)
  {
    NextCall(reader.text, reader.p.value, bytes, i);
    b := reader.GetByte(None);
  }

  /** The same with a caller's loop over the cursor. */
  method DumpThenRead(bytes: seq<Byte>) returns (read: seq<int>)
    ensures |read| == |bytes| && forall k :: 0 <= k < |bytes| ==> read[k] == bytes[k] as int
  {
    var text, _ := HexDump(bytes);
    TextLayout(bytes);
    var reader := new Reader(text);
    var b := ReadFirst(reader, bytes);
    read := [];
    while b >= 0
      invariant |read| <= |bytes| && forall k :: 0 <= k < |read| ==> read[k] == bytes[k] as int
      invariant reader.text == text && reader.Valid() && Read(text, bytes, |read|, b, reader.p)
      decreases |bytes| - |read|
    {
      read := read + [b];
      b := ReadNext(reader, bytes, |read|);
    }
  }
}
