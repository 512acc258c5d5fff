/** The hex printer and the hex parser of librfn/hex.c. */
module Hex {
  import opened Words
  import opened Wrappers

  // ---------- characters ----------

  function HexChar(h: nat): char
    requires h < 16
  {
    if h < 10 then '0' + h as char else 'a' - 10 as char + h as char
  }

  predicate IsXDigit(c: char) {
    '0' <= c <= '9' || 'a' <= c <= 'f' || 'A' <= c <= 'F'
  }

  predicate IsSpace(c: char) {
    c == ' ' || '\t' <= c <= '\r'
  }

  /** The value of a hex digit; a lower-case letter loses the bit that distinguishes it. */
  function Nibble(h: char): (n: int)
    requires IsXDigit(h)
    ensures 0 <= n < 16
  {
    if h <= '9' then h as int - '0' as int
    else (if 'a' <= h then h as int - 0x20 else h as int) - 'A' as int + 10
  }

  lemma NibbleOfHexChar(h: nat)
    requires h < 16
    ensures HexChar(h) == "0123456789abcdef"[h]
    ensures IsXDigit(HexChar(h)) && Nibble(HexChar(h)) == h
    ensures HexChar(h) != 'x' && HexChar(h) != ':' && !IsSpace(HexChar(h))
  {
  }

  lemma CharacterClasses(c: char)
    ensures IsXDigit(c) <==> c in "0123456789abcdefABCDEF"
    ensures IsSpace(c) <==> c == ' ' || c == '\t' || c == '\n' || c == '\r' || c as int == 11 || c as int == 12
  {
  }

  /** Upper-case digits count, too. */
  lemma NibbleOfAnyCase(c: char)
    requires IsXDigit(c)
    ensures c == "0123456789abcdef"[Nibble(c)] || c == "0123456789ABCDEF"[Nibble(c)]
  {
  }

  // ---------- the printer ----------

  function ByteText(b: Byte): string {
    [HexChar(b / 16), HexChar(b % 16)]
  }

  /** The text of the bytes from index i on: sixteen bytes on a line. */
  function Text(bytes: seq<Byte>, i: nat): string
    requires i <= |bytes|
    decreases |bytes| - i
  {
    if i == |bytes| then ""
    else ByteText(bytes[i]) + (if i % 16 == 15 || i + 1 == |bytes| then "\n" else "") + Text(bytes, i + 1)
  }

  /** The line break that is due after i bytes of a line. */
  ghost function Break(bytes: seq<Byte>, start: nat, i: nat): string {
    if i == 16 || (i > 0 && start + i == |bytes|) then "\n" else ""
  }

  lemma TextStep(bytes: seq<Byte>, start: nat, i: nat)
    requires start % 16 == 0 && i < 16 && start + i < |bytes|
    ensures Text(bytes, start + i)
         == ByteText(bytes[start + i]) + Break(bytes, start, i + 1) + Text(bytes, start + i + 1)
  {
    assert (start + i) % 16 == i;
  }

  /** The inner loop: one line of up to sixteen bytes. */
  method HexLine(p: seq<Byte>, start: nat) returns (line: string, i: nat)
    requires start < |p| && start % 16 == 0
    ensures i == if |p| - start < 16 then |p| - start else 16
    ensures |line| == 2 * i && line + "\n" + Text(p, start + i) == Text(p, start)
  {
    line, i := "", 0;
    ghost var whole, rest := Text(p, start), Text(p, start);
    while i < 16 && start + i < |p|
      invariant i <= 16 && start + i <= |p| && |line| == 2 * i
      invariant rest == Text(p, start + i) && line + Break(p, start, i) + rest == whole
    {
      ghost var text, due := ByteText(p[start + i]), Break(p, start, i + 1);
      ghost var next := Text(p, start + i + 1);
      TextStep(p, start, i);
      assert line + [] + rest == whole;
      Regroup(line, text, due, next);
      rest := next;
      var b := p[start + i];
      line := line + [HexChar(b / 16), HexChar(b % 16)];
      i := i + 1;
    }
  }

  lemma Regroup(a: string, b: string, c: string, d: string)
    ensures a + [] + (b + c + d) == a + b + c + d
  {
  }

  /** hex_dump_to_file, with what it prints; the size is returned as an int. */
  method HexDump(p: seq<Byte>) returns (out: string, n: int)
    ensures out == Text(p, 0) && n == Signed32(|p|)
  {
    out := "";
    var sz := |p|;
    while sz > 0
      invariant 0 <= sz <= |p| && (sz > 0 ==> (|p| - sz) % 16 == 0)
      invariant out + Text(p, |p| - sz) == Text(p, 0)
    {
      var line, i := HexLine(p, |p| - sz);
      out := out + line + "\n";
      sz := sz - i;
    }
    n := Signed32(|p|);
  }

  // ---------- the parser ----------

  /** A character of a C string, which ends with a null character. */
  function At(text: string, i: nat): char
    requires i <= |text|
  {
    if i < |text| then text[i] else '\0'
  }

  /** A character does not occur between two positions. */
  ghost predicate Lacks(text: string, a: nat, b: nat, c: char) {
    forall k :: a <= k < b && k < |text| ==> text[k] != c
  }

  /** The first occurrence of a character from s on. */
  function Strchr(text: string, s: nat, c: char): (q: Option<nat>)
    requires s <= |text|
    ensures q.Some? ==> s <= q.value < |text| && text[q.value] == c
    decreases |text| - s
  {
    if s == |text| then None else if text[s] == c then Some(s) else Strchr(text, s + 1, c)
  }

  lemma {:induction false} StrchrIsFirst(text: string, s: nat, c: char)
    requires s <= |text|
    ensures match Strchr(text, s, c)
            case Some(q) => Lacks(text, s, q, c)
            case None => Lacks(text, s, |text|, c)
    decreases |text| - s
  {
    if s < |text| && text[s] != c {
      StrchrIsFirst(text, s + 1, c);
    }
  }

  /** Whatever comes before a colon is skipped. */
  function AfterColon(text: string, s: nat): (r: nat)
    requires s <= |text|
    ensures s <= r <= |text|
  {
    match Strchr(text, s, ':')
    case Some(q) => q + 1
    case None => s
  }

  /** The colon is the first one; without one, nothing is skipped. */
  lemma FirstColon(text: string, s: nat)
    requires s <= |text|
    ensures var r := AfterColon(text, s);
      if r == s then Lacks(text, s, |text|, ':') else text[r - 1] == ':' && Lacks(text, s, r - 1, ':')
  {
    StrchrIsFirst(text, s, ':');
  }

  predicate TwoDigits(text: string, s: nat)
    requires s <= |text|
  {
    IsXDigit(At(text, s)) && IsXDigit(At(text, s + 1))
  }

  function SkipPrefix(text: string, s: nat): (r: nat)
    requires s <= |text|
    ensures s <= r <= |text|
  {
    if '0' == At(text, s) && 'x' == At(text, s + 1) then s + 2 else s
  }

  /** Where the search goes on if the digits of a byte are not at a position: behind a character of white
      space, or on the next line. */
  function Onward(text: string, s: nat): (r: Option<nat>)
    requires s <= |text|
    ensures r.Some? ==> s < r.value <= |text|
    ensures r.None? && TwoDigits(text, SkipPrefix(text, s)) ==> SkipPrefix(text, s) <= |text| - 2
  {
    if IsSpace(At(text, s)) then Some(if At(text, s) == '\n' then AfterColon(text, s + 1) else s + 1)
    else if TwoDigits(text, SkipPrefix(text, s)) then None
    else match Strchr(text, SkipPrefix(text, s), '\n')
      case None => None
      case Some(n) => Some(AfterColon(text, n + 1))
  }

  /** Where the digits of the next byte are, from a position inside a line. */
  function FindByte(text: string, s: nat): (t: Option<nat>)
    requires s <= |text|
    ensures t.Some? ==> s <= t.value <= |text| - 2 && TwoDigits(text, t.value)
    decreases |text| - s
  {
    match Onward(text, s)
    case Some(r) => FindByte(text, r)
    case None => if TwoDigits(text, SkipPrefix(text, s)) then Some(SkipPrefix(text, s)) else None
  }

  function Value(text: string, t: nat): int
    requires t <= |text| && TwoDigits(text, t)
  {
    16 * Nibble(At(text, t)) + Nibble(At(text, t + 1))
  }

  /** Where hex_get_byte starts to look; None stands for null pointers. */
  function Start(text: string, s: Option<nat>, p: Option<nat>): (r: Option<nat>)
    requires (s.Some? ==> s.value <= |text|) && (p.Some? ==> p.value <= |text|)
    ensures r.Some? ==> r.value <= |text|
  {
    if s.Some? then Some(AfterColon(text, s.value)) else p
  }

  /** The byte returned, or -1. */
  function Result(text: string, t: Option<nat>): int
    requires t.Some? ==> t.value <= |text| && TwoDigits(text, t.value)
  {
    if t.Some? then Value(text, t.value) else -1
  }

  /** White space without a line break. */
  predicate Blank(text: string, s: nat, r: nat)
    requires s <= r <= |text|
  {
    forall k :: s <= k < r ==> IsSpace(text[k]) && text[k] != '\n'
  }

  lemma {:induction false} SkipBlank(text: string, s: nat, r: nat)
    requires s <= r <= |text| && Blank(text, s, r)
    ensures FindByte(text, s) == FindByte(text, r)
    decreases r - s
  {
    if s < r {
      assert At(text, s) == text[s];
      SkipBlank(text, s + 1, r);
    }
  }

  lemma FindBreak(text: string, b: nat)
    requires b < |text| && text[b] == '\n'
    ensures FindByte(text, b) == FindByte(text, AfterColon(text, b + 1))
  {
  }

  // ---------- hex_get_byte ----------

  /** The loop over white space, which a line break ends. */
  method SkipSpace(text: string, s: nat) returns (r: nat, newline: bool)
    requires s <= |text|
    ensures if newline then s < r <= |text| && Blank(text, s, r - 1) && text[r - 1] == '\n'
            else s <= r <= |text| && Blank(text, s, r) && !IsSpace(At(text, r))
  {
    r := s;
    while IsSpace(At(text, r))
      invariant s <= r <= |text| && Blank(text, s, r)
      decreases |text| - r
    {
      r := r + 1;
      if At(text, r - 1) == '\n' {
        return r, true;
      }
    }
    newline := false;
  }

  /** What is done with the text behind white space: the digits of a byte, or else the end of the line. */
  method TryLine(text: string, s: nat) returns (t: Option<nat>, n: Option<nat>)
    requires s <= |text| && !IsSpace(At(text, s))
    ensures t.Some? ==> FindByte(text, s) == t
    ensures t.None? && n.None? ==> FindByte(text, s) == None
    ensures t.None? && n.Some? ==>
              s <= n.value < |text| && FindByte(text, s) == FindByte(text, AfterColon(text, n.value + 1))
  {
    var s1 := SkipPrefix(text, s);
    if TwoDigits(text, s1) {
      return Some(s1), None;
    }
    t := None;
    n := Strchr(text, s1, '\n');
  }

  /** One round from the label next_line on: the digits of a byte, or where to go on. */
  method ScanLine(text: string, s: nat) returns (t: Option<nat>, next: Option<nat>)
    requires s <= |text|
    ensures t.None? && next.Some? ==> s < next.value <= |text| && FindByte(text, s) == FindByte(text, next.value)
    ensures t.Some? || next.None? ==> next.None? && FindByte(text, s) == t
  {
    var r, newline := SkipSpace(text, s);
    SkipBlank(text, s, if newline then r - 1 else r);
    if newline {
      FindBreak(text, r - 1);
      return None, Some(AfterColon(text, r));
    }
    var end;
    t, end := TryLine(text, r);
    next := if t.Some? || end.None? then None else Some(AfterColon(text, end.value + 1));
  }

  /** The caller's string and its cursor p. */
  class Reader {
    const text: string
    var p: Option<nat>

    constructor (text: string)
      ensures this.text == text && p == None
    {
      this.text, p := text, None;
    }

    ghost predicate Valid()
      reads this
    {
      p.Some? ==> p.value <= |text|
    }

    /** hex_get_byte. */
    method GetByte(s0: Option<nat>) returns (b: int)
      requires Valid() && (s0.Some? ==> s0.value <= |text|)
      modifies this
      ensures Valid()
      ensures var start := Start(text, s0, old(p));
              var t := if start.None? then None else FindByte(text, start.value);
              b == Result(text, t) && p == if t.None? then None else Some(t.value + 2)
    {
      var s: nat;
      if s0.Some? {
        s := AfterColon(text, s0.value);
      } else {
        if p.None? {
          return -1;
        }
        s := p.value;
      }
      var t, next := ScanLine(text, s);
      while t.None? && next.Some?
        invariant next.Some? ==> s < next.value <= |text|
        invariant FindByte(text, s) == if t.None? && next.Some? then FindByte(text, next.value) else t
        decreases if next.Some? then |text| + 1 - next.value else 0
      {
        t, next := ScanLine(text, next.value);
      }
      if t.None? {
        p := None;
        return -1;
      }
      p := Some(t.value + 2);
      b := Value(text, t.value);
    }
  }
}
