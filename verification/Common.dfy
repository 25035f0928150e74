/** Types and functions the models share. */
module Common {
  type byte = x: int | 0 <= x < 0x100
  type half = x: int | 0 <= x < 0x1_0000
  type word = x: int | 0 <= x < 0x1_0000_0000

  datatype Option<+T> = None | Some(value: T)

  function Min(a: nat, b: nat): nat {
    if a <= b then a else b
  }

  /** The pieces laid end to end. */
  function Flat(pieces: seq<seq<byte>>): seq<byte> {
    if pieces == [] then [] else Flat(pieces[..|pieces| - 1]) + pieces[|pieces| - 1]
  }

  lemma FlatAppend(pieces: seq<seq<byte>>, p: seq<byte>)
    ensures Flat(pieces + [p]) == Flat(pieces) + p
  {
    assert (pieces + [p])[..|pieces|] == pieces;
  }

  lemma {:induction false} FlatFront(p: seq<byte>, pieces: seq<seq<byte>>)
    ensures Flat([p] + pieces) == p + Flat(pieces)
  {
    if pieces == [] {
      FlatAppend([], p);
      assert [p] + pieces == [] + [p] && [] + p == p && p + [] == p;
    } else {
      var n := |pieces| - 1;
      FlatFront(p, pieces[..n]);
      FlatAppend([p] + pieces[..n], pieces[n]);
      assert [p] + pieces == ([p] + pieces[..n]) + [pieces[n]];
      assert p + Flat(pieces[..n]) + pieces[n] == p + (Flat(pieces[..n]) + pieces[n]);
    }
  }

  lemma {:induction false} FlatPrefix(pieces: seq<seq<byte>>, n: nat)
    requires n <= |pieces|
    ensures Flat(pieces[..n]) <= Flat(pieces)
  {
    if n < |pieces| {
      var init := pieces[..|pieces| - 1];
      FlatPrefix(init, n);
      assert init[..n] == pieces[..n];
    } else {
      assert pieces[..n] == pieces;
    }
  }

  // ---------- quotient and remainder ----------

  lemma {:induction false} TimesAtLeast(a: int, b: int, d: nat)
    requires a < b
    ensures a * d + d <= b * d
    decreases b - a
  {
    assert b * d == (b - 1) * d + d;
    if a + 1 < b {
      TimesAtLeast(a, b - 1, d);
    }
  }

  lemma Quotient(x: int, d: nat, q: int, r: nat)
    requires d > 0 && r < d && x == q * d + r
    ensures x % d == r
  {
    var p, m := x / d, x % d;
    assert x == p * d + m;
    if p < q {
      TimesAtLeast(p, q, d);
    } else if q < p {
      TimesAtLeast(q, p, d);
    }
  }

  lemma ModStep(a: nat, m: nat)
    requires 0 < m <= a
    ensures (a - m) % m == a % m
  {
    var q, r := (a - m) / m, (a - m) % m;
    assert a - m == q * m + r;
    assert (q + 1) * m == q * m + m;
    Quotient(a, m, q + 1, r);
  }

  lemma SmallMod(a: nat, m: nat)
    requires a < m
    ensures a % m == a
  {
  }
}
