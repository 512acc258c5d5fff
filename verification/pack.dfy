/** The cursor of librfn/pack.c: it runs over a buffer field by field and past its end, but reads and
    writes only fields that lie within it. */
module Pack {
  import opened Words
  import opened Wrappers

  // ---------- fields and their bytes ----------

  function U16Bytes(v: nat): (x: seq<Byte>)
    ensures |x| == 2
  {
    [v % 0x100, v / 0x100 % 0x100]
  }

  function U32Bytes(v: nat): (x: seq<Byte>)
    ensures |x| == 4
  {
    [v % 0x100, v / 0x100 % 0x100, v / 0x1_0000 % 0x100, v / 0x100_0000 % 0x100]
  }

  function U16Of(x: seq<Byte>): nat
    requires |x| == 2
  {
    x[0] as int + 0x100 * x[1] as int
  }

  function U32Of(x: seq<Byte>): nat
    requires |x| == 4
  {
    x[0] as int + 0x100 * x[1] as int + 0x1_0000 * x[2] as int + 0x100_0000 * x[3] as int
  }

  lemma U16RoundTrip(v: nat)
    requires v < 0x1_0000
    ensures U16Of(U16Bytes(v)) == v
  {
  }

  lemma U32RoundTrip(v: nat)
    requires v < WORD
    ensures U32Of(U32Bytes(v)) == v
  {
    assert v / 0x1_0000 == v / 0x100 / 0x100 && v / 0x100_0000 == v / 0x1_0000 / 0x100;
  }

  /** The number whose base-256 digits are given, least significant first. */
  function LittleEndian(x: seq<Byte>): nat {
    if x == [] then 0 else x[0] as int + 0x100 * LittleEndian(x[1..])
  }

  lemma U16IsLittleEndian(x: seq<Byte>)
    requires |x| == 2
    ensures U16Of(x) == LittleEndian(x)
  {
    assert LittleEndian(x[1..]) == x[1] as int + 0x100 * LittleEndian(x[2..]) by {
      assert x[1..][1..] == x[2..];
    }
  }

  lemma U32IsLittleEndian(x: seq<Byte>)
    requires |x| == 4
    ensures U32Of(x) == LittleEndian(x)
  {
    var high := x[2..];
    U16IsLittleEndian(high);
    assert x[1..][1..] == high;
    assert LittleEndian(x[1..]) == x[1] as int + 0x100 * LittleEndian(high);
  }

  function Zeros(n: nat): (z: seq<Byte>)
    ensures |z| == n
  {
    seq(n, _ => 0)
  }

  /** The field of n bytes at an offset, all zero unless it lies within the bytes. */
  function FieldAt(bytes: seq<Byte>, off: nat, n: nat): (x: seq<Byte>)
    ensures |x| == n
  {
    if off + n <= |bytes| then bytes[off..off + n] else Zeros(n)
  }

  /** The bytes of fields that follow each other. */
  function Flat(fields: seq<seq<Byte>>): seq<Byte> {
    if fields == [] then [] else Flat(fields[..|fields| - 1]) + fields[|fields| - 1]
  }

  lemma FlatSnoc(fields: seq<seq<Byte>>, x: seq<Byte>)
    ensures Flat(fields + [x]) == Flat(fields) + x
  {
    assert (fields + [x])[..|fields|] == fields;
  }

  /** Field j starts where the fields before it end. */
  lemma {:induction false} FlatAt(fields: seq<seq<Byte>>, j: nat)
    requires j < |fields|
    ensures FieldAt(Flat(fields), |Flat(fields[..j])|, |fields[j]|) == fields[j]
    ensures |Flat(fields[..j + 1])| == |Flat(fields[..j])| + |fields[j]| <= |Flat(fields)|
    decreases |fields|
  {
    var n := |fields| - 1;
    assert fields[..j + 1] == fields[..j] + [fields[j]];
    FlatSnoc(fields[..j], fields[j]);
    if j < n {
      FlatAt(fields[..n], j);
      assert fields[..n][..j] == fields[..j] && fields[..n][..j + 1] == fields[..j + 1];
    } else {
      assert fields[..n + 1] == fields;
    }
  }

  /** A field stored at an offset if it ends within the first sz bytes. */
  function Stored(bytes: seq<Byte>, off: nat, x: seq<Byte>, sz: nat): (r: seq<Byte>)
    requires sz <= |bytes|
    ensures |r| == |bytes|
  {
    if off + |x| <= sz then bytes[..off] + x + bytes[off + |x|..] else bytes
  }

  /** Fields stored one after the other. */
  function Overlay(bytes: seq<Byte>, fields: seq<seq<Byte>>, sz: nat): (r: seq<Byte>)
    requires sz <= |bytes|
    ensures |r| == |bytes|
  {
    if fields == [] then bytes
    else Stored(Overlay(bytes, fields[..|fields| - 1], sz), |Flat(fields[..|fields| - 1])|, fields[|fields| - 1], sz)
  }

  lemma OverlaySnoc(bytes: seq<Byte>, fields: seq<seq<Byte>>, x: seq<Byte>, sz: nat)
    requires sz <= |bytes|
    ensures |Flat(fields + [x])| == |Flat(fields)| + |x|
    ensures Overlay(bytes, fields + [x], sz) == Stored(Overlay(bytes, fields, sz), |Flat(fields)|, x, sz)
  {
    FlatSnoc(fields, x);
    assert (fields + [x])[..|fields|] == fields;
  }

  /** How many fields end within sz bytes. */
  function Fitting(fields: seq<seq<Byte>>, sz: nat): (k: nat)
    ensures k <= |fields|
  {
    if fields == [] || |Flat(fields)| <= sz then |fields| else Fitting(fields[..|fields| - 1], sz)
  }

  /** Only whole fields are written, those that fit, and all other bytes stay as they were. */
  lemma {:induction false} OverlayWholeFields(bytes: seq<Byte>, fields: seq<seq<Byte>>, sz: nat)
    requires sz <= |bytes|
    ensures var k := Fitting(fields, sz); var written := Flat(fields[..k]);
      && |written| <= sz
      && (k < |fields| ==> |Flat(fields[..k + 1])| > sz)
      && Overlay(bytes, fields, sz) == written + bytes[|written|..]
    decreases |fields|
  {
    if fields != [] {
      var n := |fields| - 1;
      var rest, x := fields[..n], fields[n];
      OverlayWholeFields(bytes, rest, sz);
      var k := Fitting(rest, sz);
      assert fields == rest + [x] && fields[..n + 1] == fields;
      FlatSnoc(rest, x);
      if |Flat(fields)| <= sz {
        FittingAll(rest, sz);
        assert rest[..n] == rest;
      } else {
        assert fields[..k] == rest[..k];
        assert k < n ==> fields[..k + 1] == rest[..k + 1];
      }
    }
  }

  lemma FittingAll(fields: seq<seq<Byte>>, sz: nat)
    requires |Flat(fields)| <= sz
    ensures Fitting(fields, sz) == |fields|
  {
  }

  // ---------- writing a field ----------

  method CopyBytes(buf: array<Byte>, q: nat, x: seq<Byte>)
    requires q + |x| <= buf.Length
    modifies buf
    ensures buf[..] == old(buf[..])[..q] + x + old(buf[..])[q + |x|..]
  {
    forall i | 0 <= i < |x| {
      buf[q + i] := x[i];
    }
  }

  method WriteU16le(buf: array<Byte>, q: nat, v: nat)
    requires q + 2 <= buf.Length
    modifies buf
    ensures buf[..] == old(buf[..])[..q] + U16Bytes(v) + old(buf[..])[q + 2..]
  {
    buf[q] := v % 0x100;
    buf[q + 1] := v / 0x100 % 0x100;
  }

  method WriteU32le(buf: array<Byte>, q: nat, v: nat)
    requires q + 4 <= buf.Length
    modifies buf
    ensures buf[..] == old(buf[..])[..q] + U32Bytes(v) + old(buf[..])[q + 4..]
  {
    buf[q] := v % 0x100;
    buf[q + 1] := v / 0x100 % 0x100;
    buf[q + 2] := v / 0x1_0000 % 0x100;
    buf[q + 3] := v / 0x100_0000 % 0x100;
  }

  // ---------- the cursor ----------

  class Cursor {
    const buf: array<Byte>
    const endp: nat
    var p: nat
    ghost const before: seq<Byte>
    ghost var fields: seq<seq<Byte>>

    /** rf_pack_init. */
    constructor (buf: array<Byte>, sz: nat)
      requires sz <= buf.Length
      ensures this.buf == buf && endp == sz && p == 0 && before == buf[..] && fields == [] && Packing()
    {
      this.buf, endp, p := buf, sz, 0;
      before, fields := buf[..], [];
    }

    /** What packing has made of the buffer so far. */
    ghost predicate Packing()
      reads this, buf
    {
      && endp <= |before| == buf.Length
      && p == |Flat(fields)| && buf[..] == Overlay(before, fields, endp)
    }

    method Remaining() returns (r: int)
      ensures r == Signed32(endp - p)
    {
      r := Signed32(endp - p);
    }

    /** rf_pack_bytes: None stands for a null pointer, which packs zeros. */
    method PackBytes(src: Option<seq<Byte>>, sz: nat)
      requires Packing() && (src.Some? ==> |src.value| == sz)
      modifies this, buf
      ensures Packing() && fields == old(fields) + [if src.None? then Zeros(sz) else src.value]
    {
      var x := if src.None? then Zeros(sz) else src.value;
      OverlaySnoc(before, fields, x, endp);
      ghost var bytes := buf[..];
      var q := p;
      p := p + sz;
      if p <= endp {
        CopyBytes(buf, q, x);
      }
      assert buf[..] == Stored(bytes, q, x, endp);
      fields := fields + [x];
    }

    method PackU16le(v: nat)
      requires Packing()
      modifies this, buf
      ensures Packing() && fields == old(fields) + [U16Bytes(v)]
    {
      OverlaySnoc(before, fields, U16Bytes(v), endp);
      var q := p;
      p := p + 2;
      if p <= endp {
        WriteU16le(buf, q, v);
      }
      fields := fields + [U16Bytes(v)];
    }

    method PackU32le(v: nat)
      requires Packing()
      modifies this, buf
      ensures Packing() && fields == old(fields) + [U32Bytes(v)]
    {
      OverlaySnoc(before, fields, U32Bytes(v), endp);
      var q := p;
      p := p + 4;
      if p <= endp {
        WriteU32le(buf, q, v);
      }
      fields := fields + [U32Bytes(v)];
    }

    /** rf_unpack_bytes into a buffer of its own. */
    method UnpackBytes(sz: nat) returns (x: seq<Byte>)
      requires endp <= buf.Length
      modifies `p
      ensures p == old(p) + sz && x == FieldAt(buf[..endp], old(p), sz)
    {
      var q := p;
      p := p + sz;
      if p <= endp {
        x := buf[q..q + sz];
      } else {
        x := Zeros(sz);
      }
    }

    /** rf_unpack_bytes with a null pointer. */
    method Skip(sz: nat)
      modifies `p
      ensures p == old(p) + sz
    {
      p := p + sz;
    }

    method UnpackU16le() returns (v: nat)
      requires endp <= buf.Length
      modifies `p
      ensures p == old(p) + 2 && v == U16Of(FieldAt(buf[..endp], old(p), 2))
    {
      var q := p;
      p := p + 2;
      if p > endp {
        return 0;
      }
      v := buf[q] as int + 0x100 * buf[q + 1] as int;
    }

    method UnpackU32le() returns (v: nat)
      requires endp <= buf.Length
      modifies `p
      ensures p == old(p) + 4 && v == U32Of(FieldAt(buf[..endp], old(p), 4))
    {
      var q := p;
      p := p + 4;
      if p > endp {
        return 0;
      }
      v := buf[q] as int + 0x100 * buf[q + 1] as int + 0x1_0000 * buf[q + 2] as int + 0x100_0000 * buf[q + 3] as int;
    }
  }
}
