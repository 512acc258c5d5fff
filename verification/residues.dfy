/** Residues modulo a queue length, as ring indices use them. */
module Residues {

  lemma {:induction false} MulGrows(k: int, len: nat)
    requires k >= 1
    ensures k * len >= len
    decreases k
  {
    if k > 1 {
      MulGrows(k - 1, len);
      assert k * len == (k - 1) * len + len;
    }
  }

  /** Quotients with remainders below len are unique. */
  lemma DivUnique(q: int, r: int, q': int, r': int, len: nat)
    requires 0 <= r < len && 0 <= r' < len && q * len + r == q' * len + r'
    ensures q == q' && r == r'
  {
    assert (q - q') * len == q * len - q' * len;
    assert (q' - q) * len == q' * len - q * len;
    if q > q' {
      MulGrows(q - q', len);
    } else if q < q' {
      MulGrows(q' - q, len);
    }
  }

  lemma ModUnique(n: int, q: int, r: int, len: nat)
    requires 0 <= r < len && n == q * len + r
    ensures n % len == r
  {
    DivUnique(q, r, n / len, n % len, len);
  }

  /** The successor of an index into a ring. */
  function Succ(p: int, len: int): int {
    if p >= len - 1 then 0 else p + 1
  }

  lemma ModStep(n: nat, len: nat)
    requires len > 0
    ensures (n + 1) % len == Succ(n % len, len)
  {
    var q, r := n / len, n % len;
    assert n == q * len + r;
    if r == len - 1 {
      assert (q + 1) * len == q * len + len;
      ModUnique(n + 1, q + 1, 0, len);
    } else {
      ModUnique(n + 1, q, r + 1, len);
    }
  }

  /** Within a window of len consecutive numbers, a residue modulo len determines the number. */
  lemma ModWindow(i: nat, j: nat, len: nat)
    requires len > 0 && i < j < i + len
    ensures i % len != j % len
  {
    if i % len == j % len {
      var a, b, r := i / len, j / len, i % len;
      assert i == a * len + r && j == b * len + r;
      assert (b - a) * len == b * len - a * len;
      assert (a - b) * len == a * len - b * len;
      if b > a {
        MulGrows(b - a, len);
      } else if a > b {
        MulGrows(a - b, len);
      }
    }
  }

  /** The first number from a given one on that has a given residue modulo len. */
  function FirstAt(from: nat, slot: nat, len: nat): nat
    requires slot < len
  {
    if slot >= from % len then from + (slot - from % len) else from + len - from % len + slot
  }

  lemma FirstAtMod(from: nat, slot: nat, len: nat)
    requires slot < len
    ensures from <= FirstAt(from, slot, len) < from + len
    ensures FirstAt(from, slot, len) % len == slot
  {
    var q, r := from / len, from % len;
    assert from == q * len + r;
    if slot >= r {
      ModUnique(FirstAt(from, slot, len), q, slot, len);
    } else {
      assert (q + 1) * len == q * len + len;
      ModUnique(FirstAt(from, slot, len), q + 1, slot, len);
    }
  }

  lemma FirstAtIs(from: nat, j: nat, len: nat)
    requires len > 0 && from <= j < from + len
    ensures j % len < len && FirstAt(from, j % len, len) == j
  {
    var k := FirstAt(from, j % len, len);
    FirstAtMod(from, j % len, len);
    if k < j {
      ModWindow(k, j, len);
    } else if j < k {
      ModWindow(j, k, len);
    }
  }

  // ---------- unsigned char arithmetic ----------

  function Inc8(b: int): int {
    if b >= 255 then 0 else b + 1
  }

  function Dec8(b: int): int {
    if b <= 0 then 255 else b - 1
  }

  /** The value of an unsigned char after x is stored in it. */
  function Wrap8(x: int): (r: int)
    ensures 0 <= r < 256
    decreases if x < 0 then 256 - x else x
  {
    if x < 0 then Wrap8(x + 256) else if x >= 256 then Wrap8(x - 256) else x
  }

  lemma {:induction false} Wrap8Mod(x: int)
    ensures Wrap8(x) == x % 256
    decreases if x < 0 then 256 - x else x
  {
    if x < 0 {
      Wrap8Mod(x + 256);
    } else if x >= 256 {
      Wrap8Mod(x - 256);
    }
  }

  lemma Wrap8Inc(x: int)
    ensures Inc8(Wrap8(x)) == Wrap8(x + 1)
  {
    Wrap8Mod(x);
    Wrap8Mod(x + 1);
  }

  lemma Wrap8Dec(x: int)
    ensures Dec8(Wrap8(x)) == Wrap8(x - 1)
  {
    Wrap8Mod(x);
    Wrap8Mod(x - 1);
  }
}
