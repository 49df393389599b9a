/**
 What the WAL checksum is: over the 32-bit words w of the data, starting from (a, b), both of its
 halves are sums of the words and of a and b, weighted by Fibonacci numbers, modulo 2^32.
 */
module ChecksumWeights {
  import opened WalScan

  function Fib(n: nat): nat {
    if n < 2 then n else Fib(n - 1) + Fib(n - 2)
  }

  // The first k words, the j-th one with weight Fib(m - j).
  function Weighted(w: seq<nat>, m: nat, k: nat): nat
    requires k <= |w| && k <= m
  {
    if k == 0 then 0 else Weighted(w, m, k - 1) + Fib(m - (k - 1)) * w[k - 1]
  }

  // The weighted sum of everything after the words w.
  function Total(a: nat, b: nat, w: seq<nat>): nat {
    Fib(|w|) * a + Fib(|w| + 1) * b + Weighted(w, |w|, |w|)
  }

  // The words of the data in order.
  function Flat(ws: Words): (w: seq<nat>)
    ensures |w| == 2 * |ws|
  {
    if ws == [] then [] else Flat(ws[..|ws| - 1]) + [ws[|ws| - 1].0, ws[|ws| - 1].1]
  }

  lemma {:induction false} FlatAt(ws: Words, i: nat)
    requires i < |ws|
    ensures Flat(ws)[2 * i] == ws[i].0 && Flat(ws)[2 * i + 1] == ws[i].1
    decreases |ws|
  {
    if i < |ws| - 1 {
      FlatAt(ws[..|ws| - 1], i);
    }
  }

  lemma {:induction false} WeightedPrefix(w: seq<nat>, v: seq<nat>, m: nat, k: nat)
    requires k <= m && k <= |w| && k <= |v| && w[..k] == v[..k]
    ensures Weighted(w, m, k) == Weighted(v, m, k)
    decreases k
  {
    if k > 0 {
      assert w[..k - 1] == w[..k][..k - 1] && v[..k - 1] == v[..k][..k - 1];
      WeightedPrefix(w, v, m, k - 1);
      assert w[k - 1] == w[..k][k - 1] && v[k - 1] == v[..k][k - 1];
    }
  }

  // Weights add up like Fibonacci numbers do.
  lemma {:induction false} WeightedStep(w: seq<nat>, m: nat, k: nat)
    requires k <= m && k <= |w|
    ensures Weighted(w, m + 2, k) == Weighted(w, m + 1, k) + Weighted(w, m, k)
    decreases k
  {
    if k > 0 {
      WeightedStep(w, m, k - 1);
      var x := m - (k - 1);
      assert Fib(x + 2) == Fib(x + 1) + Fib(x);
      Distribute(Fib(x + 1), Fib(x), w[k - 1]);
    }
  }

  lemma Distribute(x: nat, y: nat, z: nat)
    ensures (x + y) * z == x * z + y * z
  {
  }

  // Every word continues the sequence: the new total is the sum of the two before it and the word.
  lemma TotalStep(a: nat, b: nat, w: seq<nat>, x: nat, y: nat)
    ensures Total(a, b, w + [x, y]) == Total(a, b, w) + y + Total(a, b, w + [x])
    ensures w != [] ==> Total(a, b, w + [x]) == Total(a, b, w[..|w| - 1]) + Total(a, b, w) + x
    ensures w == [] ==> Total(a, b, w + [x]) == a + b + x
  {
    TotalNext(a, b, w + [x], y);
    assert (w + [x])[..|w|] == w && w + [x] + [y] == w + [x, y];
    if w != [] {
      TotalNext(a, b, w, x);
    } else {
      assert w + [x] == [x] && Weighted([x], 1, 1) == Weighted([x], 1, 0) + Fib(1) * x;
    }
  }

  lemma TotalNext(a: nat, b: nat, w: seq<nat>, x: nat)
    requires w != []
    ensures Total(a, b, w + [x]) == Total(a, b, w[..|w| - 1]) + Total(a, b, w) + x
  {
    var n := |w| - 1;
    var v, u := w + [x], w[..n];
    WeightedPrefix(v, w, n + 2, n + 1);
    WeightedStep(w, n, n);
    WeightedPrefix(u, w, n, n);
    assert Weighted(v, n + 2, n + 2) == Weighted(v, n + 2, n + 1) + Fib(1) * x;
    assert Weighted(w, n + 2, n + 1) == Weighted(w, n + 2, n) + Fib(2) * w[n];
    assert Weighted(w, n + 1, n + 1) == Weighted(w, n + 1, n) + Fib(1) * w[n];
    assert Fib(2) == 1 && Fib(1) == 1;
    assert Fib(n + 2) == Fib(n + 1) + Fib(n) && Fib(n + 3) == Fib(n + 2) + Fib(n + 1);
    Distribute(Fib(n + 1), Fib(n), a);
    Distribute(Fib(n + 2), Fib(n + 1), b);
  }

  lemma Residues(x: nat, y: nat, z: nat)
    ensures (x % TWO32 + z + y % TWO32) % TWO32 == (x + z + y) % TWO32
  {
    var p, q := x / TWO32, y / TWO32;
    assert x == p * TWO32 + x % TWO32 && y == q * TWO32 + y % TWO32;
    assert x + z + y == (x % TWO32 + z + y % TWO32) + (p + q) * TWO32;
  }

  lemma FoldLast(s: Sum, ws: Words)
    requires ws != []
    ensures var u := ws[|ws| - 1]; Fold(s, ws) == AddUnit(Fold(s, ws[..|ws| - 1]), u.0, u.1)
  {
    var init, last := ws[..|ws| - 1], [ws[|ws| - 1]];
    assert ws == init + last && last[1..] == [];
    FoldConcat(s, init, last);
  }

  // r is the checksum of the words w from s on.
  predicate IsWeighted(s: Sum, w: seq<nat>, r: Sum) {
    && r.s1 == Total(s.s0, s.s1, w) % TWO32
    && r.s0 == if w == [] then s.s0 else Total(s.s0, s.s1, w[..|w| - 1]) % TWO32
  }

  // Both halves of the checksum, for every start and all data.
  lemma {:induction false} FoldIsWeighted(s: Sum, ws: Words)
    requires s.Valid()
    ensures IsWeighted(s, Flat(ws), Fold(s, ws))
    decreases |ws|
  {
    if ws == [] {
      assert Total(s.s0, s.s1, []) == Fib(0) * s.s0 + Fib(1) * s.s1;
    } else {
      var u, init := ws[|ws| - 1], ws[..|ws| - 1];
      var w := Flat(init);
      FoldIsWeighted(s, init);
      FoldLast(s, ws);
      TotalStep(s.s0, s.s1, w, u.0, u.1);
      UnitIsWeighted(s, Fold(s, init), w, u.0, u.1);
      assert Flat(ws) == w + [u.0, u.1] && Flat(ws)[..|Flat(ws)| - 1] == w + [u.0];
    }
  }

  // One unit, given what holds before it.
  lemma UnitIsWeighted(s: Sum, t: Sum, w: seq<nat>, x: nat, y: nat)
    requires s.Valid() && IsWeighted(s, w, t)
    ensures AddUnit(t, x, y).s0 == Total(s.s0, s.s1, w + [x]) % TWO32
    ensures AddUnit(t, x, y).s1 == Total(s.s0, s.s1, w + [x, y]) % TWO32
  {
    TotalStep(s.s0, s.s1, w, x, y);
    var before := if w == [] then s.s0 else Total(s.s0, s.s1, w[..|w| - 1]);
    assert w == [] ==> Total(s.s0, s.s1, w) == Fib(0) * s.s0 + Fib(1) * s.s1 == s.s1;
    Residues(before, Total(s.s0, s.s1, w), x);
    Residues(Total(s.s0, s.s1, w), Total(s.s0, s.s1, w + [x]), y);
  }
}
