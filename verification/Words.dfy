/**
 * Machine words as naturals: wrap-around at 2^32, bitwise `and`, and
 * the fact the ring code rests on: masking with `N-1` is reduction mod `N`
 * whenever `N` is a power of two, also after the counter has wrapped.
 */
module Words {
  const WORD: nat := 0x1_0000_0000

  /** 32-bit subtraction with wrap-around. */
  function Sub32(a: nat, b: nat): nat {
    (a - b) % WORD
  }

  /** 32-bit addition with wrap-around. */
  function Add32(a: nat, b: nat): nat {
    (a + b) % WORD
  }

  predicate IsPow2(n: nat) {
    n == 1 || (n > 1 && n % 2 == 0 && IsPow2(n / 2))
  }

  /** Bitwise `and`, one binary digit at a time. */
  function BitAnd(x: nat, y: nat): nat {
    if x == 0 || y == 0 then 0
    else 2 * BitAnd(x / 2, y / 2) + (if x % 2 == 1 && y % 2 == 1 then 1 else 0)
  }

  /** Division is unique: the one place where products of variables are needed. */
  lemma DivModUnique(x: int, n: int, q: int, r: int)
    requires 0 < n && 0 <= r < n && x == q * n + r
    ensures x / n == q && x % n == r
  {
    var q', r' := x / n, x % n;
    assert x == q' * n + r';
    var d := q - q';
    assert d * n == r' - r;
    assert d >= 1 ==> d * n >= n;
    assert d <= -1 ==> d * n <= -n;
  }

  lemma MulStep(a: nat, b: nat, n: nat)
    requires a < b
    ensures a * n + n <= b * n
  {
    var d := b - a - 1;
    assert b * n == a * n + n + d * n;
  }

  lemma ModDistinct(a: nat, b: nat, n: nat)
    requires a < b < a + n
    ensures a % n != b % n
  {
    if a % n == b % n {
      var d := b - a;
      assert b == (b / n) * n + a % n;
      DivModUnique(b - a, n, b / n - a / n, 0);
      DivModUnique(b - a, n, 0, b - a);
      assert false;
    }
  }

  /** Reducing modulo a multiple first changes nothing. */
  lemma ModMultiple(p: nat, n: nat, k: nat)
    requires 0 < n && 0 < k * n
    ensures (p % (k * n)) % n == p % n
  {
    var w := k * n;
    var q, r := p / w, p % w;
    assert p == q * w + r;
    assert p == (q * k + r / n) * n + r % n by {
      assert q * w == (q * k) * n;
      assert r == (r / n) * n + r % n;
    }
    DivModUnique(p, n, q * k + r / n, r % n);
  }

  lemma {:induction false} Pow2Divides(n: nat, w: nat) returns (k: nat)
    requires IsPow2(n) && IsPow2(w) && n <= w
    ensures w == k * n && 0 < k
  {
    if n == 1 {
      k := w;
    } else {
      k := Pow2Divides(n / 2, w / 2);
      assert k * n == k * (2 * (n / 2)) == 2 * (k * (n / 2));
    }
  }

  lemma WordIsPow2()
    ensures IsPow2(WORD)
  {
    assert IsPow2(0x100);
    assert IsPow2(0x1_0000) by {
      assert IsPow2(0x1000) by { assert IsPow2(0x800) && IsPow2(0x400) && IsPow2(0x200); }
      assert IsPow2(0x8000) by { assert IsPow2(0x4000) && IsPow2(0x2000); }
    }
    assert IsPow2(0x100_0000) by {
      assert IsPow2(0x10_0000) by { assert IsPow2(0x8_0000) && IsPow2(0x4_0000) && IsPow2(0x2_0000); }
      assert IsPow2(0x80_0000) by { assert IsPow2(0x40_0000) && IsPow2(0x20_0000); }
    }
    assert IsPow2(0x1000_0000) by {
      assert IsPow2(0x800_0000) && IsPow2(0x400_0000) && IsPow2(0x200_0000);
    }
    assert IsPow2(0x8000_0000) by { assert IsPow2(0x4000_0000) && IsPow2(0x2000_0000); }
  }

  /** The wrapped counter and the true counter select the same slot. */
  lemma WrapMod(p: nat, n: nat)
    requires IsPow2(n) && n <= WORD
    ensures (p % WORD) % n == p % n
  {
    WordIsPow2();
    var k := Pow2Divides(n, WORD);
    ModMultiple(p, n, k);
  }

  lemma ModDouble(x: nat, m: nat)
    requires 0 < m
    ensures x % (2 * m) == 2 * ((x / 2) % m) + x % 2
  {
    var h := x / 2;
    var q, r := h / m, h % m;
    assert h == q * m + r;
    assert q * (2 * m) == 2 * (q * m);
    DivModUnique(x, 2 * m, q, 2 * r + x % 2);
  }

  /** `x & (n-1)` is `x mod n` for a power of two. */
  lemma {:induction false} MaskIsMod(x: nat, n: nat)
    requires IsPow2(n)
    ensures BitAnd(x, n - 1) == x % n
  {
    if n == 1 || x == 0 {
    } else {
      MaskIsMod(x / 2, n / 2);
      ModDouble(x, n / 2);
      assert (n - 1) / 2 == n / 2 - 1;
    }
  }

  /** A wrapped difference is the true difference when that is below 2^32. */
  lemma Sub32Exact(a: nat, b: nat)
    requires b <= a < b + WORD
    ensures Sub32(a % WORD, b % WORD) == a - b
  {
    var d := a % WORD - b % WORD;
    DivModUnique(d, WORD, b / WORD - a / WORD + 0, a - b);
  }

  lemma Add32Exact(a: nat, k: nat)
    ensures Add32(a % WORD, k) == (a + k) % WORD
  {
    var q, r := (a % WORD + k) / WORD, (a % WORD + k) % WORD;
    DivModUnique(a + k, WORD, a / WORD + q, r);
  }
}
