/** Double-scalar multiplication with interleaved wNAF streams, over any abelian group. */
module EcMult {
  import opened Numbers
  import opened Wnaf
  import opened AbelianGroup

  const WINDOW_A: nat := 5
  const WINDOW_G: nat := 10
  const TABLE_SIZE_A: nat := 8
  const TABLE_SIZE_G: nat := 256

  // ----- tables of odd multiples

  /** Entry i is (2i + 1) times p. */
  ghost predicate IsOddMultiples<P>(g: Group<P>, table: seq<P>, p: P)
  {
    forall i :: 0 <= i < |table| ==> table[i] == Times(g, 2 * i + 1, p)
  }

  method FillOddMultiples<P(!new)>(g: Group<P>, table: array<P>, p: P)
    requires IsAbelian(g) && table.Length > 0
    modifies table
    ensures IsOddMultiples(g, table[..], p)
  {
    var q := p;
    var double := g.add(p, p);
    table[0] := q;
    TimesOne(g, p);
    var i := 1;
    while i < table.Length
      invariant 1 <= i <= table.Length
      invariant q == Times(g, 2 * i - 1, p)
      invariant forall j :: 0 <= j < i ==> table[j] == Times(g, 2 * j + 1, p)
    {
      TimesAdd(g, 2 * i - 1, 2, p);
      q := g.add(q, double);
      table[i] := q;
      i := i + 1;
    }
  }

  lemma TimesOne<P(!new)>(g: Group<P>, p: P)
    requires IsAbelian(g)
    ensures Times(g, 1, p) == p && Times(g, 2, p) == g.add(p, p)
  {
    assert Times(g, 1, p) == g.add(Times(g, 0, p), p);
    Zero(g, p);
  }

  /** The table entry for a non-zero digit; negative digits negate it. */
  function TableGet<P>(g: Group<P>, table: seq<P>, n: int): P
    requires n != 0 && (if n > 0 then n else -n) <= 2 * |table|
  {
    if n > 0 then table[(n - 1) / 2] else g.neg(table[(-n - 1) / 2])
  }

  /** A digit of the window stays inside its table of 2^(window - 2) entries and finds that multiple. */
  lemma TableGetIs<P(!new)>(g: Group<P>, table: seq<P>, n: int, window: nat, p: P)
    requires IsAbelian(g) && window >= 2 && |table| == Pow2(window - 2)
    requires IsOddMultiples(g, table, p) && IsDigit(n, window)
    ensures n != 0 && (if n > 0 then n else -n) <= 2 * |table|
    ensures TableGet(g, table, n) == Times(g, n, p)
  {
    assert Pow2(window - 1) == 2 * Pow2(window - 2);
    if n > 0 {
      assert 2 * ((n - 1) / 2) + 1 == n;
    } else {
      assert 2 * ((-n - 1) / 2) + 1 == -n;
      TimesNeg(g, -n, p);
    }
  }

  // ----- combinations of the two points

  ghost function Combine<P>(g: Group<P>, x: int, a: P, y: int, b: P): P
  {
    g.add(Times(g, x, a), Times(g, y, b))
  }

  lemma CombineDouble<P(!new)>(g: Group<P>, x: int, a: P, y: int, b: P)
    requires IsAbelian(g)
    ensures g.add(Combine(g, x, a, y, b), Combine(g, x, a, y, b)) == Combine(g, 2 * x, a, 2 * y, b)
  {
    var u, v := Times(g, x, a), Times(g, y, b);
    var w := g.add(u, v);
    Assoc(g, w, u, v);
    SwapLast(g, u, v, u);
    Assoc(g, g.add(u, u), v, v);
    TimesAdd(g, x, x, a);
    TimesAdd(g, y, y, b);
    assert g.add(w, w) == g.add(g.add(w, u), v);
  }

  lemma CombineAddFirst<P(!new)>(g: Group<P>, x: int, a: P, y: int, b: P, n: int)
    requires IsAbelian(g)
    ensures g.add(Combine(g, x, a, y, b), Times(g, n, a)) == Combine(g, x + n, a, y, b)
  {
    SwapLast(g, Times(g, x, a), Times(g, y, b), Times(g, n, a));
    TimesAdd(g, x, n, a);
  }

  lemma CombineAddSecond<P(!new)>(g: Group<P>, x: int, a: P, y: int, b: P, n: int)
    requires IsAbelian(g)
    ensures g.add(Combine(g, x, a, y, b), Times(g, n, b)) == Combine(g, x, a, y + n, b)
  {
    Assoc(g, Times(g, x, a), Times(g, y, b), Times(g, n, b));
    TimesAdd(g, y, n, b);
  }

  lemma CombineZero<P(!new)>(g: Group<P>, a: P, b: P)
    requires IsAbelian(g)
    ensures Combine(g, 0, a, 0, b) == g.zero
  {
    Zero(g, g.zero);
  }

  lemma {:induction false} EvalTail(d: seq<int>, i: nat)
    requires i < |d|
    ensures Eval(d[i..]) == d[i] + 2 * Eval(d[i + 1..])
  {
    assert d[i..][1..] == d[i + 1..];
  }

  // ----- digit streams

  /** A digit string as the main loops read it: digits of the window below `bits`, zeros above. */
  ghost predicate IsStream(d: seq<int>, bits: int, window: nat)
    requires window >= 1
  {
    && bits <= |d|
    && (forall j :: 0 <= j < |d| && d[j] != 0 ==> IsDigit(d[j], window))
    && (forall j :: 0 <= j < |d| && bits <= j ==> d[j] == 0)
  }

  lemma {:induction false} EvalAbove(d: seq<int>, bits: int, window: nat, i: nat)
    requires window >= 1 && IsStream(d, bits, window) && bits <= i <= |d|
    ensures Eval(d[i..]) == 0
  {
    EvalZeros(d[i..]);
  }

  /** The recoded scalar of secp256r1; the default has no digits. */
  class WnafDigits {
    const wnaf: array<i32>
    var bits: int

    constructor Default(width: nat)
      ensures fresh(wnaf) && wnaf.Length == width && bits == -1
      ensures forall j :: 0 <= j < width ==> wnaf[j] == 0
    {
      wnaf := new i32[width](_ => 0);
      bits := -1;
    }

    constructor New(s: nat, order: nat, width: nat, window: nat)
      requires 2 <= window <= 31 && width > 0 && s < order < Pow2(width)
      ensures fresh(wnaf) && wnaf.Length == width && IsWnaf(wnaf[..], window, bits)
      ensures Eval(wnaf[..]) == if s < Pow2(width - 1) then s else s - order
    {
      wnaf := new i32[width](_ => 0);
      bits := -1;
      new;
      FullWidth(s, order, width);
      bits := Recode(wnaf, s, order, width, window);
    }

    function GetDigit(i: nat): (n: Option<i32>)
      reads this, wnaf
      requires i < wnaf.Length
    {
      if i < bits && wnaf[i] != 0 then Some(wnaf[i]) else None
    }
  }

  // ----- secp256r1

  /** na * a + ng * gen, for every pair of scalars and every point the order kills. */
  method EcMult<P(0, ==, !new)>(g: Group<P>, a: P, na: nat, ng: nat, gen: P, tableG: seq<P>, order: nat, width: nat)
    returns (r: P)
    requires IsAbelian(g) && width > 0 && na < order < Pow2(width) && ng < order
    requires |tableG| == TABLE_SIZE_G && IsOddMultiples(g, tableG, gen)
    requires Times(g, order, a) == g.zero && Times(g, order, gen) == g.zero
    ensures r == Combine(g, na, a, ng, gen)
  {
    var digitsA, tableA := StreamOf(g, a, na, order, width);
    var digitsG: WnafDigits;
    if ng != 0 {
      digitsG := new WnafDigits.New(ng, order, width, WINDOW_G);
    } else {
      digitsG := new WnafDigits.Default(width);
      EvalZeros(digitsG.wnaf[..]);
    }
    r := Interleave(g, a, digitsA, tableA[..], gen, digitsG, tableG, width);
    ghost var x, y := Eval(digitsA.wnaf[..]), Eval(digitsG.wnaf[..]);
    if y != ng {
      Killed(g, order, ng, -1, gen);
    }
  }

  /** The digits of na with the table of a, or no digits when the product vanishes. */
  method StreamOf<P(0, ==, !new)>(g: Group<P>, a: P, na: nat, order: nat, width: nat)
    returns (digits: WnafDigits, table: array<P>)
    requires IsAbelian(g) && width > 0 && na < order < Pow2(width) && Times(g, order, a) == g.zero
    ensures fresh(digits) && fresh(digits.wnaf) && digits.wnaf.Length == width
    ensures IsStream(digits.wnaf[..], digits.bits, WINDOW_A)
    ensures digits.bits >= 0 ==> table.Length == TABLE_SIZE_A && IsOddMultiples(g, table[..], a)
    ensures Times(g, Eval(digits.wnaf[..]), a) == Times(g, na, a)
  {
    table := new P[TABLE_SIZE_A];
    if na != 0 && a != g.zero {
      digits := new WnafDigits.New(na, order, width, WINDOW_A);
      FillOddMultiples(g, table, a);
      if Eval(digits.wnaf[..]) != na {
        Killed(g, order, na, -1, a);
      }
    } else {
      digits := new WnafDigits.Default(width);
      EvalZeros(digits.wnaf[..]);
      TimesZero(g, na);
    }
  }

  /** Adds the table entry for digit i, if there is one. */
  method AddDigit<P(!new)>(g: Group<P>, r: P, digits: WnafDigits, i: nat, table: seq<P>, window: nat, ghost p: P)
    returns (r': P)
    requires IsAbelian(g) && window >= 2 && i < digits.wnaf.Length && IsStream(digits.wnaf[..], digits.bits, window)
    requires digits.bits >= 0 ==> |table| == Pow2(window - 2) && IsOddMultiples(g, table, p)
    ensures r' == g.add(r, Times(g, digits.wnaf[i], p))
  {
    var n := digits.GetDigit(i);
    assert digits.wnaf[..][i] == digits.wnaf[i];
    if n.Some? {
      TableGetIs(g, table, n.value, window, p);
      r' := g.add(r, TableGet(g, table, n.value));
    } else {
      Zero(g, r);
      r' := r;
    }
  }

  /** Doubling and adding one digit of each stream moves one position down. */
  lemma {:induction false} CombineStep<P(!new)>(g: Group<P>, r: P, d: seq<int>, a: P, e: seq<int>, b: P, i: nat)
    requires IsAbelian(g) && 0 < i <= |d| && i <= |e| && r == Combine(g, Eval(d[i..]), a, Eval(e[i..]), b)
    ensures g.add(g.add(g.add(r, r), Times(g, d[i - 1], a)), Times(g, e[i - 1], b))
         == Combine(g, Eval(d[i - 1..]), a, Eval(e[i - 1..]), b)
  {
    var x, y, n, m := Eval(d[i..]), Eval(e[i..]), d[i - 1], e[i - 1];
    EvalTail(d, i - 1);
    EvalTail(e, i - 1);
    CombineDouble(g, x, a, y, b);
    CombineAddFirst(g, 2 * x, a, 2 * y, b, n);
    CombineAddSecond(g, 2 * x + n, a, 2 * y, b, m);
  }

  /** The main loop: from the top digit down, double and add the table entries. */
  method Interleave<P(!new)>(g: Group<P>, a: P, digitsA: WnafDigits, tableA: seq<P>,
                             gen: P, digitsG: WnafDigits, tableG: seq<P>, width: nat) returns (r: P)
    requires IsAbelian(g)
    requires digitsA.wnaf.Length == width && IsStream(digitsA.wnaf[..], digitsA.bits, WINDOW_A)
    requires digitsG.wnaf.Length == width && IsStream(digitsG.wnaf[..], digitsG.bits, WINDOW_G)
    requires digitsA.bits >= 0 ==> |tableA| == TABLE_SIZE_A && IsOddMultiples(g, tableA, a)
    requires |tableG| == TABLE_SIZE_G && IsOddMultiples(g, tableG, gen)
    ensures r == Combine(g, Eval(digitsA.wnaf[..]), a, Eval(digitsG.wnaf[..]), gen)
  {
    r := g.zero;
    var bits := Max(digitsA.bits, digitsG.bits);
    var i: nat := Max(bits, 0);
    ghost var da, dg := digitsA.wnaf[..], digitsG.wnaf[..];
    EvalAbove(da, digitsA.bits, WINDOW_A, i);
    EvalAbove(dg, digitsG.bits, WINDOW_G, i);
    CombineZero(g, a, gen);
    while i > 0
      invariant i <= width
      invariant r == Combine(g, Eval(da[i..]), a, Eval(dg[i..]), gen)
    {
      CombineStep(g, r, da, a, dg, gen, i);
      i := i - 1;
      r := g.add(r, r);
      r := AddDigit(g, r, digitsA, i, tableA, WINDOW_A, a);
      r := AddDigit(g, r, digitsG, i, tableG, WINDOW_G, gen);
    }
    assert da[0..] == da && dg[0..] == dg;
  }

  // ----- secp256k1

  /** The tables of gen and of 2^half * gen (half is 128 on the machine). */
  method Initialize<P(!new)>(g: Group<P>, gen: P, preG: array<P>, preG128: array<P>, half: nat)
    requires IsAbelian(g) && preG.Length == preG128.Length == TABLE_SIZE_G && preG != preG128
    modifies preG, preG128
    ensures IsOddMultiples(g, preG[..], gen)
    ensures IsOddMultiples(g, preG128[..], Times(g, Shl(1, half), gen))
  {
    var p := gen;
    FillOddMultiples(g, preG, p);
    ghost var first := preG[..];
    TimesOne(g, gen);
    var i := 0;
    while i < half
      invariant i <= half && p == Times(g, Shl(1, i), gen) && preG[..] == first
    {
      TimesAdd(g, Shl(1, i), Shl(1, i), gen);
      p := g.add(p, p);
      i := i + 1;
    }
    FillOddMultiples(g, preG128, p);
  }

  /** The endomorphism applied to a table of odd multiples of p gives one of lambda * p. */
  method MapTable<P(!new)>(g: Group<P>, endo: P -> P, table: array<P>, aux: array<P>, ghost lambda: int, ghost p: P)
    requires IsAbelian(g) && table != aux && table.Length == aux.Length && IsOddMultiples(g, table[..], p)
    requires forall q :: endo(q) == Times(g, lambda, q)
    modifies aux
    ensures IsOddMultiples(g, aux[..], Times(g, lambda, p))
  {
    var i := 0;
    while i < aux.Length
      invariant i <= aux.Length
      invariant forall j :: 0 <= j < i ==> aux[j] == Times(g, 2 * j + 1, Times(g, lambda, p))
    {
      assert table[i] == table[..][i];
      TimesTimes(g, lambda, 2 * i + 1, p);
      TimesTimes(g, 2 * i + 1, lambda, p);
      assert lambda * (2 * i + 1) == (2 * i + 1) * lambda;
      aux[i] := endo(table[i]);
      i := i + 1;
    }
  }

  /** A stream: its digits, their number, and its table. An empty stream needs no table. */
  datatype Stream<P> = Stream(wnaf: array<i32>, bits: int, table: seq<P>)

  ghost predicate Ready<P>(g: Group<P>, s: Stream<P>, window: nat, p: P, len: nat)
    requires window >= 2
    reads s.wnaf
  {
    && s.wnaf.Length == len && 0 <= s.bits && IsStream(s.wnaf[..], s.bits, window)
    && (s.bits > 0 ==> |s.table| == Pow2(window - 2) && IsOddMultiples(g, s.table, p))
  }

  /** A stream for s times p, or an empty one. */
  method StreamIf<P(!new)>(g: Group<P>, active: bool, s: nat, order: nat, half: nat, window: nat, table: seq<P>,
                           ghost p: P)
    returns (stream: Stream<P>)
    requires IsAbelian(g) && 2 <= window <= 31 && half > 0 && Times(g, order, p) == g.zero
    requires active ==> s < order <= Pow2(2 * half) && Magnitude(s, order, 2 * half) < Pow2(half)
    requires active ==> |table| == Pow2(window - 2) && IsOddMultiples(g, table, p)
    ensures fresh(stream.wnaf) && Ready(g, stream, window, p, half + 1)
    ensures Times(g, Eval(stream.wnaf[..]), p) == if active then Times(g, s, p) else g.zero
  {
    var wnaf := new i32[half + 1](_ => 0);
    var bits := 0;
    if active {
      bits := Recode(wnaf, s, order, 2 * half, window);
      if Eval(wnaf[..]) != s {
        Killed(g, order, s, -1, p);
      }
    } else {
      EvalZeros(wnaf[..]);
    }
    stream := Stream(wnaf, bits, table);
  }

  /** Adds the table entry for digit i, if there is one. */
  function AddEntry<P(!new)>(g: Group<P>, r: P, s: Stream<P>, i: nat, ghost window: nat, ghost p: P): (r': P)
    requires IsAbelian(g) && window >= 2 && i < s.wnaf.Length && Ready(g, s, window, p, s.wnaf.Length)
    reads s.wnaf
    ensures r' == g.add(r, Times(g, s.wnaf[i], p))
  {
    var n := s.wnaf[i];
    assert s.wnaf[..][i] == n;
    if i < s.bits && n != 0 then
      TableGetIs(g, s.table, n, window, p);
      g.add(r, TableGet(g, s.table, n))
    else
      Zero(g, r);
      r
  }

  /** Four points and what is added of each. */
  ghost function Combine4<P>(g: Group<P>, x: int, a: P, x': int, a': P, y: int, b: P, y': int, b': P): P
  {
    g.add(Combine(g, x, a, x', a'), Combine(g, y, b, y', b'))
  }

  /** What the digits from position i up stand for. */
  ghost function Suffixes<P>(g: Group<P>, d: seq<int>, a: P, d': seq<int>, a': P, e: seq<int>, b: P, e': seq<int>,
                             b': P, i: nat): P
    requires i <= |d| == |d'| == |e| == |e'|
  {
    Combine4(g, Eval(d[i..]), a, Eval(d'[i..]), a', Eval(e[i..]), b, Eval(e'[i..]), b')
  }

  /** Doubling and adding one digit of each of the four streams. */
  lemma {:induction false} Combine4Step<P(!new)>(g: Group<P>, r: P, d: seq<int>, a: P, d': seq<int>, a': P,
                                                 e: seq<int>, b: P, e': seq<int>, b': P, i: nat)
    requires IsAbelian(g) && 0 < i <= |d| && |d| == |d'| == |e| == |e'|
    requires r == Suffixes(g, d, a, d', a', e, b, e', b', i)
    ensures g.add(g.add(g.add(g.add(g.add(r, r), Times(g, d[i - 1], a)), Times(g, d'[i - 1], a')),
                        Times(g, e[i - 1], b)), Times(g, e'[i - 1], b'))
         == Suffixes(g, d, a, d', a', e, b, e', b', i - 1)
  {
    var u := Combine(g, Eval(d[i..]), a, Eval(d'[i..]), a');
    var v := Combine(g, Eval(e[i..]), b, Eval(e'[i..]), b');
    CombineStep(g, u, d, a, d', a', i);
    CombineStep(g, v, e, b, e', b', i);
    Regroup4(g, u, v, Times(g, d[i - 1], a), Times(g, d'[i - 1], a'), Times(g, e[i - 1], b), Times(g, e'[i - 1], b'));
  }

  lemma Regroup4<P(!new)>(g: Group<P>, u: P, v: P, p: P, p': P, q: P, q': P)
    requires IsAbelian(g)
    ensures var r := g.add(u, v);
      g.add(g.add(g.add(g.add(g.add(r, r), p), p'), q), q')
      == g.add(g.add(g.add(g.add(u, u), p), p'), g.add(g.add(g.add(v, v), q), q'))
  {
    var r := g.add(u, v);
    Assoc(g, r, u, v);
    SwapLast(g, u, v, u);
    Assoc(g, g.add(u, u), v, v);
    var uu, vv := g.add(u, u), g.add(v, v);
    SwapLast(g, uu, vv, p);
    SwapLast(g, g.add(uu, p), vv, p');
    var left := g.add(g.add(uu, p), p');
    Assoc(g, left, vv, q);
    Assoc(g, left, g.add(vv, q), q');
  }

  method AddEntries<P(!new)>(g: Group<P>, r: P, s: Stream<P>, ghost p: P, s': Stream<P>, ghost p': P, window: nat,
                             i: nat, ghost len: nat)
    returns (r': P)
    requires IsAbelian(g) && window >= 2 && i < len && Ready(g, s, window, p, len) && Ready(g, s', window, p', len)
    ensures r' == g.add(g.add(r, Times(g, s.wnaf[i], p)), Times(g, s'.wnaf[i], p'))
  {
    r' := AddEntry(g, AddEntry(g, r, s, i, window, p), s', i, window, p');
  }

  /** One iteration: the digits at position i. */
  method DoubleAndAdd<P(!new)>(g: Group<P>, ghost len: nat, s0: Stream<P>, ghost p0: P, s1: Stream<P>, ghost p1: P,
                               s2: Stream<P>, ghost p2: P, s3: Stream<P>, ghost p3: P, i: nat, r: P) returns (r': P)
    requires IsAbelian(g) && i < len
    requires Ready(g, s0, WINDOW_A, p0, len) && Ready(g, s1, WINDOW_A, p1, len)
    requires Ready(g, s2, WINDOW_G, p2, len) && Ready(g, s3, WINDOW_G, p3, len)
    requires r == Suffixes(g, s0.wnaf[..], p0, s1.wnaf[..], p1, s2.wnaf[..], p2, s3.wnaf[..], p3, i + 1)
    ensures r' == Suffixes(g, s0.wnaf[..], p0, s1.wnaf[..], p1, s2.wnaf[..], p2, s3.wnaf[..], p3, i)
  {
    Combine4Step(g, r, s0.wnaf[..], p0, s1.wnaf[..], p1, s2.wnaf[..], p2, s3.wnaf[..], p3, i + 1);
    r' := g.add(r, r);
    r' := AddEntries(g, r', s0, p0, s1, p1, WINDOW_A, i, len);
    r' := AddEntries(g, r', s2, p2, s3, p3, WINDOW_G, i, len);
  }

  /** The main loop over four streams. */
  method Interleave4<P(!new)>(g: Group<P>, len: nat, s0: Stream<P>, ghost p0: P, s1: Stream<P>, ghost p1: P,
                              s2: Stream<P>, ghost p2: P, s3: Stream<P>, ghost p3: P) returns (r: P)
    requires IsAbelian(g)
    requires Ready(g, s0, WINDOW_A, p0, len) && Ready(g, s1, WINDOW_A, p1, len)
    requires Ready(g, s2, WINDOW_G, p2, len) && Ready(g, s3, WINDOW_G, p3, len)
    ensures r == Combine4(g, Eval(s0.wnaf[..]), p0, Eval(s1.wnaf[..]), p1, Eval(s2.wnaf[..]), p2, Eval(s3.wnaf[..]), p3)
  {
    r := g.zero;
    var i: nat := Max(Max(s0.bits, s1.bits), Max(s2.bits, s3.bits));
    ghost var d0, d1, d2, d3 := s0.wnaf[..], s1.wnaf[..], s2.wnaf[..], s3.wnaf[..];
    EvalAbove(d0, s0.bits, WINDOW_A, i);
    EvalAbove(d1, s1.bits, WINDOW_A, i);
    EvalAbove(d2, s2.bits, WINDOW_G, i);
    EvalAbove(d3, s3.bits, WINDOW_G, i);
    Combine4Zero(g, p0, p1, p2, p3);
    while i > 0
      invariant i <= len
      invariant r == Suffixes(g, d0, p0, d1, p1, d2, p2, d3, p3, i)
    {
      r := DoubleAndAdd(g, len, s0, p0, s1, p1, s2, p2, s3, p3, i - 1, r);
      i := i - 1;
    }
    assert d0[0..] == d0 && d1[0..] == d1 && d2[0..] == d2 && d3[0..] == d3;
  }

  lemma Combine4Zero<P(!new)>(g: Group<P>, p0: P, p1: P, p2: P, p3: P)
    requires IsAbelian(g)
    ensures Combine4(g, 0, p0, 0, p1, 0, p2, 0, p3) == g.zero
  {
    CombineZero(g, p0, p1);
    CombineZero(g, p2, p3);
    Zero(g, g.zero);
  }

  /** The scalars na1 and naLam stand for na through the endomorphism, and are half as wide up to sign. */
  ghost predicate Decomposes(na: int, na1: int, naLam: int, lambda: int, t: int, order: nat, half: nat)
    requires half > 0
  {
    && 0 <= na1 < order && 0 <= naLam < order && na == na1 + lambda * naLam + t * order
    && Magnitude(na1, order, 2 * half) < Pow2(half) && Magnitude(naLam, order, 2 * half) < Pow2(half)
  }

  /** The two streams for a: one for a itself, one for its image under the endomorphism. */
  method StreamsA<P(0, ==, !new)>(g: Group<P>, a: P, na: nat, na1: nat, naLam: nat, endo: P -> P,
                                  ghost lambda: int, ghost t: int, order: nat, half: nat)
    returns (s0: Stream<P>, s1: Stream<P>)
    requires IsAbelian(g) && half > 0 && order <= Pow2(2 * half) && Times(g, order, a) == g.zero
    requires Decomposes(na, na1, naLam, lambda, t, order, half)
    requires forall q :: endo(q) == Times(g, lambda, q)
    ensures fresh(s0.wnaf) && fresh(s1.wnaf)
    ensures Ready(g, s0, WINDOW_A, a, half + 1) && Ready(g, s1, WINDOW_A, Times(g, lambda, a), half + 1)
    ensures Combine(g, Eval(s0.wnaf[..]), a, Eval(s1.wnaf[..]), Times(g, lambda, a)) == Times(g, na, a)
  {
    var active := na != 0 && a != g.zero;
    var table, aux := new P[TABLE_SIZE_A], new P[TABLE_SIZE_A];
    if active {
      FillOddMultiples(g, table, a);
      MapTable(g, endo, table, aux, lambda, a);
    }
    KilledMultiple(g, order, lambda, a);
    s0 := StreamIf(g, active, na1, order, half, WINDOW_A, table[..], a);
    s1 := StreamIf(g, active, naLam, order, half, WINDOW_A, aux[..], Times(g, lambda, a));
    if active {
      Recombined(g, order, na1, naLam, lambda, t, na, a);
    } else {
      Zero(g, g.zero);
      TimesZero(g, na);
    }
  }

  lemma Recombined<P(!new)>(g: Group<P>, order: int, x: int, y: int, k: int, t: int, z: int, p: P)
    requires IsAbelian(g) && Times(g, order, p) == g.zero && z == x + k * y + t * order
    ensures Combine(g, x, p, y, Times(g, k, p)) == Times(g, z, p)
  {
    TimesTimes(g, y, k, p);
    SumKilled(g, order, x, y * k, t, p);
    assert z == x + y * k + t * order;
  }

  lemma SumKilled<P(!new)>(g: Group<P>, order: int, x: int, w: int, t: int, p: P)
    requires IsAbelian(g) && Times(g, order, p) == g.zero
    ensures g.add(Times(g, x, p), Times(g, w, p)) == Times(g, x + w + t * order, p)
  {
    TimesAdd(g, x, w, p);
    Killed(g, order, x + w, t, p);
  }

  /** The two streams for the generator: the low and the high half of ng. */
  method StreamsG<P(!new)>(g: Group<P>, gen: P, ng: nat, preG: seq<P>, preG128: seq<P>, order: nat, half: nat)
    returns (s2: Stream<P>, s3: Stream<P>)
    requires IsAbelian(g) && half > 0 && ng < order <= Pow2(2 * half) && Times(g, order, gen) == g.zero
    requires |preG| == |preG128| == TABLE_SIZE_G
    requires IsOddMultiples(g, preG, gen) && IsOddMultiples(g, preG128, Times(g, Shl(1, half), gen))
    ensures fresh(s2.wnaf) && fresh(s3.wnaf)
    ensures Ready(g, s2, WINDOW_G, gen, half + 1) && Ready(g, s3, WINDOW_G, Times(g, Shl(1, half), gen), half + 1)
    ensures Combine(g, Eval(s2.wnaf[..]), gen, Eval(s3.wnaf[..]), Times(g, Shl(1, half), gen)) == Times(g, ng, gen)
  {
    var low, high := Decompose128(ng, order, half);
    KilledMultiple(g, order, Shl(1, half), gen);
    assert Pow2(8) == TABLE_SIZE_G;
    s2 := StreamIf(g, ng != 0, low, order, half, WINDOW_G, preG, gen);
    s3 := StreamIf(g, ng != 0, high, order, half, WINDOW_G, preG128, Times(g, Shl(1, half), gen));
    if ng == 0 {
      Zero(g, g.zero);
    } else {
      Recombined(g, order, low, high, Shl(1, half), 0, ng, gen);
    }
  }

  /**
   * na * a + ng * gen through the endomorphism: na is given as na1 + lambda * naLam modulo
   * the order, and ng is cut in the middle (half is 128 on the machine).
   */
  method EcMultSplit<P(0, ==, !new)>(g: Group<P>, a: P, na: nat, na1: nat, naLam: nat, endo: P -> P,
                                     ghost lambda: int, ghost t: int, gen: P, ng: nat, preG: seq<P>, preG128: seq<P>,
                                     order: nat, half: nat) returns (r: P)
    requires IsAbelian(g) && half > 0 && ng < order <= Pow2(2 * half)
    requires Times(g, order, a) == g.zero && Times(g, order, gen) == g.zero
    requires Decomposes(na, na1, naLam, lambda, t, order, half)
    requires forall q :: endo(q) == Times(g, lambda, q)
    requires |preG| == |preG128| == TABLE_SIZE_G
    requires IsOddMultiples(g, preG, gen) && IsOddMultiples(g, preG128, Times(g, Shl(1, half), gen))
    ensures r == Combine(g, na, a, ng, gen)
  {
    var s0, s1 := StreamsA(g, a, na, na1, naLam, endo, lambda, t, order, half);
    var s2, s3 := StreamsG(g, gen, ng, preG, preG128, order, half);
    r := Interleave4(g, half + 1, s0, a, s1, Times(g, lambda, a), s2, gen, s3, Times(g, Shl(1, half), gen));
  }

  lemma KilledMultiple<P(!new)>(g: Group<P>, order: int, k: int, p: P)
    requires IsAbelian(g) && Times(g, order, p) == g.zero
    ensures Times(g, order, Times(g, k, p)) == g.zero
  {
    TimesTimes(g, order, k, p);
    TimesTimes(g, k, order, p);
    TimesZero(g, k);
    assert order * k == k * order;
  }

  /** Both halves of ng are below 2^half, and they make up ng. */
  method Decompose128(ng: nat, order: nat, half: nat) returns (low: nat, high: nat)
    requires half > 0 && ng < order <= Pow2(2 * half)
    ensures ng == low + Shl(1, half) * high
    ensures low < order && Magnitude(low, order, 2 * half) < Pow2(half)
    ensures high < order && Magnitude(high, order, 2 * half) < Pow2(half)
  {
    low, high := LowBits(ng, half), Shr(ng, half);
    LowBitsSplit(ng, half, half);
    LowBitsAll(ng, 2 * half);
    ShrBelow(ng, half, half);
    LowBitsAll(high, half);
    ShlTimes(high, half);
    Pow2Monotone(half, 2 * half - 1);
  }

  lemma {:induction false} ShlTimes(x: nat, k: nat)
    ensures Shl(x, k) == Shl(1, k) * x && x <= Shl(x, k)
  {
    if k > 0 {
      ShlTimes(x, k - 1);
    }
  }
}
