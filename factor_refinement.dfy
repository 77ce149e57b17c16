/**
 * Coprime factor refinement (factor_refinement.c), after Bach, Driscoll
 * and Shallit, "Factor Refinement" (1989). A refinement is a list of nodes
 * (m, e) standing for the product of the powers m^e. The C code keeps the
 * nodes in singly linked lists; here a list is a sequence of nodes, in
 * order, and splicing is sequence concatenation.
 */
module FactorRefinement {
  import opened Basics

  /** One list node: a base m and its exponent e. */
  datatype Node = Node(m: nat, e: nat)

  /** remove_ones writes through a NULL tail when every node it keeps would be a 1. */
  const NullTail := "remove_ones links past a NULL tail: every node is a 1"

  function Pow(b: nat, e: nat): nat {
    if e == 0 then 1 else b * Pow(b, e - 1)
  }

  /** The number a list stands for: the product of its m^e. */
  function Product(l: seq<Node>): nat {
    if l == [] then 1 else Pow(l[0].m, l[0].e) * Product(l[1..])
  }

  /** The product of the bases alone; it falls with every proper gcd split. */
  function Bases(l: seq<Node>): nat {
    if l == [] then 1 else l[0].m * Bases(l[1..])
  }

  /** The number of adjacent pairs of nodes neither of which is a 1. */
  function Pairs(l: seq<Node>): nat {
    if |l| < 2 then 0 else (if l[0].m != 1 && l[1].m != 1 then 1 else 0) + Pairs(l[1..])
  }

  /** The product of a sequence of numbers. */
  function NatProduct(x: seq<nat>): nat {
    if x == [] then 1 else NatProduct(x[..|x| - 1]) * x[|x| - 1]
  }

  /** Every base is positive. */
  predicate Positive(l: seq<Node>) {
    forall k :: 0 <= k < |l| ==> l[k].m >= 1
  }

  /** Every exponent is positive. */
  predicate Counted(l: seq<Node>) {
    forall k :: 0 <= k < |l| ==> l[k].e >= 1
  }

  /** No node is a 1. */
  predicate NoOnes(l: seq<Node>) {
    forall k :: 0 <= k < |l| ==> l[k].m != 1
  }

  /** What pair_refine_unreduced stops at: of any two neighbours, one is a 1. */
  predicate Reduced(l: seq<Node>) {
    forall k :: 0 <= k < |l| - 1 ==> l[k].m == 1 || l[k + 1].m == 1
  }

  /** The nodes that are not 1, in their order. */
  function NonOnes(l: seq<Node>): (r: seq<Node>)
    ensures |r| <= |l|
  {
    if l == [] then []
    else NonOnes(l[..|l| - 1]) + (if l[|l| - 1].m != 1 then [l[|l| - 1]] else [])
  }

  /** fmpz_divexact and the remainder, by repeated subtraction. */
  function Quot(a: nat, d: nat): nat
    requires d > 0
    decreases a
  {
    if a < d then 0 else Quot(a - d, d) + 1
  }

  function Rem(a: nat, d: nat): (r: nat)
    requires d > 0
    ensures r < d
    decreases a
  {
    if a < d then a else Rem(a - d, d)
  }

  /** fmpz_gcd, by Euclid's algorithm. */
  function Gcd(a: nat, b: nat): (r: nat)
    ensures a > 0 || b > 0 ==> r > 0
    decreases b
  {
    if b == 0 then a else Gcd(b, Rem(a, b))
  }

  /** One gcd split of neighbours c and c + 1: both are divided by d, and (d, e_c + e_{c+1}) goes between them. */
  function Split(l: seq<Node>, c: nat, d: nat): (r: seq<Node>)
    requires c + 1 < |l| && d > 0
    ensures |r| == |l| + 1
  {
    l[..c] + [Node(Quot(l[c].m, d), l[c].e), Node(d, l[c].e + l[c + 1].e), Node(Quot(l[c + 1].m, d), l[c + 1].e)] + l[c + 2..]
  }

  // ---------------------------------------------------------------- arithmetic

  lemma Assoc(p: nat, x: nat, y: nat)
    ensures p * (x * y) == (p * x) * y
  {
  }

  lemma {:induction false} DivMod(a: nat, d: nat)
    requires d > 0
    ensures a == Quot(a, d) * d + Rem(a, d)
    decreases a
  {
    if a >= d {
      DivMod(a - d, d);
      var q := Quot(a - d, d);
      assert (q + 1) * d == q * d + d;
    }
  }

  /** Dividing a multiple of d by d gives the factor back. */
  lemma {:induction false} QuotExact(k: nat, d: nat)
    requires d > 0
    ensures Quot(k * d, d) == k && Rem(k * d, d) == 0
    decreases k
  {
    if k > 0 {
      assert k * d - d == (k - 1) * d;
      QuotExact(k - 1, d);
    }
  }

  /** The gcd of two numbers, not both zero, is positive and divides both: a = s * g and b = t * g. */
  lemma {:induction false} GcdDivides(a: nat, b: nat) returns (s: nat, t: nat)
    requires a > 0 || b > 0
    ensures Gcd(a, b) > 0 && a == s * Gcd(a, b) && b == t * Gcd(a, b)
    decreases b
  {
    if b == 0 {
      return 1, 0;
    }
    var g := Gcd(b, Rem(a, b));
    var s', t' := GcdDivides(b, Rem(a, b));
    var q := Quot(a, b);
    DivMod(a, b);
    CommonFactor(a, b, Rem(a, b), q, s', t', g);
    return q * s' + t', s';
  }

  /** a = q b + r with b and r multiples of g makes a a multiple of g. */
  lemma CommonFactor(a: nat, b: nat, r: nat, q: nat, s: nat, t: nat, g: nat)
    requires a == q * b + r && b == s * g && r == t * g
    ensures a == (q * s + t) * g
  {
    Assoc(q, s, g);
    assert (q * s) * g + t * g == (q * s + t) * g;
  }

  /** d is a positive divisor of n: fmpz_divisible. */
  predicate Divides(d: nat, n: nat) {
    d > 0 && Rem(n, d) == 0
  }

  lemma DividesMultiple(k: nat, d: nat)
    requires d > 0
    ensures Divides(d, k * d)
  {
    QuotExact(k, d);
  }

  lemma DividesFactor(d: nat, n: nat)
    requires Divides(d, n)
    ensures n == Quot(n, d) * d
  {
    DivMod(n, d);
  }

  lemma DividesSelf(n: nat)
    requires n > 0
    ensures Divides(n, n)
  {
    DividesMultiple(1, n);
  }

  lemma DividesTrans(a: nat, b: nat, c: nat)
    requires Divides(a, b) && Divides(b, c)
    ensures Divides(a, c)
  {
    DividesFactor(a, b);
    DividesFactor(b, c);
    var p, q := Quot(c, b), Quot(b, a);
    Assoc(p, q, a);
    DividesMultiple(p * q, a);
  }

  /** The only divisor of 1 is 1. */
  lemma DividesOne(d: nat)
    requires Divides(d, 1)
    ensures d == 1
  {
  }

  /** With a = q b + r and a, b multiples of c, so is r. */
  lemma Remainder(a: nat, b: nat, r: nat, q: nat, ka: nat, kb: nat, c: nat) returns (k: nat)
    requires c > 0 && a == q * b + r && a == ka * c && b == kb * c
    ensures r == k * c
  {
    Assoc(q, kb, c);
    var t: int := ka - q * kb;
    assert r == t * c by {
      assert t * c == ka * c - (q * kb) * c;
    }
    if t < 0 {
      assert (-t) * c >= c by {
        ScaleAtLeast(-t, c);
      }
      assert false;
    }
    k := t;
  }

  lemma ScaleAtLeast(x: nat, c: nat)
    requires x >= 1
    ensures x * c >= c
  {
    assert x * c == c + (x - 1) * c;
  }

  /** Every common divisor of a and b divides their gcd. */
  lemma {:induction false} GcdGreatest(a: nat, b: nat, c: nat)
    requires Divides(c, a) && Divides(c, b)
    ensures Divides(c, Gcd(a, b))
    decreases b
  {
    if b > 0 {
      var r := Rem(a, b);
      DivMod(a, b);
      DividesFactor(c, a);
      DividesFactor(c, b);
      var k := Remainder(a, b, r, Quot(a, b), Quot(a, c), Quot(b, c), c);
      DividesMultiple(k, c);
      GcdGreatest(b, r, c);
    }
  }

  /** The gcd of two numbers, not both zero, divides both. */
  lemma GcdCommon(a: nat, b: nat)
    requires a > 0 || b > 0
    ensures Divides(Gcd(a, b), a) && Divides(Gcd(a, b), b)
  {
    var s, t := GcdDivides(a, b);
    DividesMultiple(s, Gcd(a, b));
    DividesMultiple(t, Gcd(a, b));
  }

  /** Divisors of coprime numbers are coprime. */
  lemma CoprimeDivisors(a: nat, b: nat, a': nat, b': nat)
    requires Gcd(a, b) == 1 && Divides(a', a) && Divides(b', b)
    ensures Gcd(a', b') == 1
  {
    GcdCommon(a', b');
    var g := Gcd(a', b');
    DividesTrans(g, a', a);
    DividesTrans(g, b', b);
    GcdGreatest(a, b, g);
    DividesOne(g);
  }

  lemma CoprimeSym(a: nat, b: nat)
    requires Gcd(a, b) == 1 && (a > 0 || b > 0)
    ensures Gcd(b, a) == 1
  {
    GcdCommon(b, a);
    GcdGreatest(a, b, Gcd(b, a));
    DividesOne(Gcd(b, a));
  }

  /** 1 is coprime to everything. */
  lemma CoprimeUnit(a: nat, b: nat)
    requires a == 1 || b == 1
    ensures Gcd(a, b) == 1
  {
    GcdCommon(a, b);
    DividesOne(Gcd(a, b));
  }

  /** Dividing two positive numbers by their gcd leaves coprime quotients. */
  lemma QuotientsCoprime(x: nat, y: nat)
    requires x > 0 && y > 0
    ensures Gcd(Quot(x, Gcd(x, y)), Quot(y, Gcd(x, y))) == 1
  {
    var d := Gcd(x, y);
    var s, t := GcdDivides(x, y);
    QuotExact(s, d);
    QuotExact(t, d);
    GcdCommon(s, t);
    var g := Gcd(s, t);
    DividesFactor(g, s);
    DividesFactor(g, t);
    Assoc(Quot(s, g), g, d);
    Assoc(Quot(t, g), g, d);
    DividesMultiple(Quot(s, g), g * d);
    DividesMultiple(Quot(t, g), g * d);
    GcdGreatest(x, y, g * d);
    DividesFactor(g * d, d);
    Cancel(Quot(d, g * d), g, d);
  }

  /** d = k (g d) with d > 0 forces g = 1. */
  lemma Cancel(k: nat, g: nat, d: nat)
    requires d > 0 && d == k * (g * d)
    ensures g == 1
  {
    Assoc(k, g, d);
    FixedFactor(k * g, d);
    UnitFactors(k, g);
  }

  /** p d = d with d > 0 forces p = 1. */
  lemma FixedFactor(p: nat, d: nat)
    requires d > 0 && p * d == d
    ensures p == 1
  {
    assert p >= 2 ==> p * d == d + (p - 1) * d && (p - 1) * d >= d by {
      if p >= 2 {
        ScaleAtLeast(p - 1, d);
      }
    }
  }

  /** k g = 1 forces g = 1. */
  lemma UnitFactors(k: nat, g: nat)
    requires k * g == 1
    ensures g == 1
  {
    assert g >= 2 ==> k * g == 0 || k * g >= g by {
      if g >= 2 && k >= 1 {
        ScaleAtLeast(k, g);
      }
    }
  }

  lemma {:induction false} PowAdd(b: nat, e1: nat, e2: nat)
    ensures Pow(b, e1 + e2) == Pow(b, e1) * Pow(b, e2)
    decreases e1
  {
    if e1 > 0 {
      PowAdd(b, e1 - 1, e2);
      var x, y := Pow(b, e1 - 1), Pow(b, e2);
      assert Pow(b, e1 + e2) == b * Pow(b, e1 - 1 + e2);
      Assoc(b, x, y);
    }
  }

  lemma {:induction false} PowMul(a: nat, b: nat, e: nat)
    ensures Pow(a * b, e) == Pow(a, e) * Pow(b, e)
    decreases e
  {
    if e > 0 {
      PowMul(a, b, e - 1);
      var x, y := Pow(a, e - 1), Pow(b, e - 1);
      assert Pow(a * b, e) == (a * b) * (x * y);
      Swap(a, b, x, y);
    }
  }

  lemma Swap(a: nat, b: nat, x: nat, y: nat)
    ensures (a * b) * (x * y) == (a * x) * (b * y)
  {
  }

  lemma {:induction false} PowOne(e: nat)
    ensures Pow(1, e) == 1
    decreases e
  {
    if e > 0 {
      PowOne(e - 1);
    }
  }

  /** A power of a positive base is positive, and above 1 when the base is and the exponent is positive. */
  lemma {:induction false} PowAbove(b: nat, e: nat)
    requires b >= 1
    ensures Pow(b, e) >= 1 && (b > 1 && e >= 1 ==> Pow(b, e) > 1)
    decreases e
  {
    if e > 0 {
      PowAbove(b, e - 1);
      var x := Pow(b, e - 1);
      assert b * x >= x;
      if b > 1 {
        assert b * x >= 2 * x;
      }
    }
  }

  // ---------------------------------------------------------------- lists

  lemma {:induction false} ProductAppend(a: seq<Node>, b: seq<Node>)
    ensures Product(a + b) == Product(a) * Product(b)
    decreases |a|
  {
    if a != [] {
      assert (a + b)[1..] == a[1..] + b;
      ProductAppend(a[1..], b);
      var p, x, y := Pow(a[0].m, a[0].e), Product(a[1..]), Product(b);
      assert (a + b)[0] == a[0];
      assert Product(a + b) == p * Product(a[1..] + b);
      Assoc(p, x, y);
    } else {
      assert a + b == b;
    }
  }

  lemma {:induction false} BasesAppend(a: seq<Node>, b: seq<Node>)
    ensures Bases(a + b) == Bases(a) * Bases(b)
    decreases |a|
  {
    if a != [] {
      assert (a + b)[1..] == a[1..] + b;
      BasesAppend(a[1..], b);
      var p, x, y := a[0].m, Bases(a[1..]), Bases(b);
      assert (a + b)[0] == a[0];
      assert Bases(a + b) == p * Bases(a[1..] + b);
      Assoc(p, x, y);
    } else {
      assert a + b == b;
    }
  }

  lemma {:induction false} BasesPositive(l: seq<Node>)
    requires Positive(l)
    ensures Bases(l) >= 1
    decreases |l|
  {
    if l != [] {
      BasesPositive(l[1..]);
      assert l[0].m * Bases(l[1..]) >= Bases(l[1..]);
    }
  }

  /** Replacing a middle part by one that stands for the same number keeps the number of the whole list. */
  lemma ProductSplice(pre: seq<Node>, mid: seq<Node>, mid': seq<Node>, post: seq<Node>)
    requires Product(mid') == Product(mid)
    ensures Product(pre + mid' + post) == Product(pre + mid + post)
  {
    ProductAppend(pre + mid, post);
    ProductAppend(pre, mid);
    ProductAppend(pre + mid', post);
    ProductAppend(pre, mid');
  }

  /** Replacing a middle part whose bases multiply to k * B by one whose bases multiply to B divides the whole by k. */
  lemma BasesSplice(pre: seq<Node>, mid: seq<Node>, mid': seq<Node>, post: seq<Node>, k: nat)
    requires Bases(mid') * k == Bases(mid)
    ensures Bases(pre + mid' + post) * k == Bases(pre + mid + post)
  {
    BasesAppend(pre + mid, post);
    BasesAppend(pre, mid);
    BasesAppend(pre + mid', post);
    BasesAppend(pre, mid');
    Rotate(Bases(pre), Bases(mid'), Bases(post), k);
  }

  lemma Rotate(p: nat, m: nat, q: nat, k: nat)
    ensures p * m * q * k == p * (m * k) * q
  {
  }

  lemma ProductOne(x: Node)
    ensures Product([x]) == Pow(x.m, x.e)
  {
    assert [x][1..] == [];
    var p := Pow(x.m, x.e);
    assert Product([x]) == p * Product([]);
  }

  lemma ProductTwo(x: Node, y: Node)
    ensures Product([x, y]) == Pow(x.m, x.e) * Pow(y.m, y.e)
  {
    assert [x, y][1..] == [y];
    ProductOne(y);
    var p := Pow(x.m, x.e);
    assert Product([x, y]) == p * Product([y]);
  }

  lemma ProductThree(x: Node, y: Node, z: Node)
    ensures Product([x, y, z]) == Pow(x.m, x.e) * (Pow(y.m, y.e) * Pow(z.m, z.e))
  {
    assert [x, y, z][1..] == [y, z];
    ProductTwo(y, z);
    var p := Pow(x.m, x.e);
    assert Product([x, y, z]) == p * Product([y, z]);
  }

  lemma Regroup(pa: nat, pdx: nat, pdy: nat, pb: nat)
    ensures pa * ((pdx * pdy) * pb) == (pa * pdx) * (pb * pdy)
  {
  }

  lemma BasesThree(x: Node, y: Node, z: Node)
    ensures Bases([x, y, z]) == x.m * (y.m * z.m)
  {
    assert [x, y, z][1..] == [y, z];
    assert [y, z][1..] == [z];
    assert [z][1..] == [];
    assert Bases([z]) == z.m * Bases([]);
    assert Bases([y, z]) == y.m * Bases([z]);
    assert Bases([x, y, z]) == x.m * Bases([y, z]);
  }

  lemma BasesTwo(x: Node, y: Node)
    ensures Bases([x, y]) == x.m * y.m
  {
    assert [x, y][1..] == [y];
    assert [y][1..] == [];
    assert Bases([y]) == y.m * Bases([]);
    assert Bases([x, y]) == x.m * Bases([y]);
  }

  /** The three nodes of a split stand for the same number as the two they replace. */
  lemma SplitMid(a: nat, b: nat, d: nat, ea: nat, eb: nat)
    ensures Product([Node(a, ea), Node(d, ea + eb), Node(b, eb)]) == Product([Node(a * d, ea), Node(b * d, eb)])
    ensures Bases([Node(a, ea), Node(d, ea + eb), Node(b, eb)]) * d == Bases([Node(a * d, ea), Node(b * d, eb)])
  {
    PowAdd(d, ea, eb);
    PowMul(a, d, ea);
    PowMul(b, d, eb);
    ProductThree(Node(a, ea), Node(d, ea + eb), Node(b, eb));
    ProductTwo(Node(a * d, ea), Node(b * d, eb));
    Regroup(Pow(a, ea), Pow(d, ea), Pow(d, eb), Pow(b, eb));
    BasesThree(Node(a, ea), Node(d, ea + eb), Node(b, eb));
    BasesTwo(Node(a * d, ea), Node(b * d, eb));
    Regroup2(a, d, b);
  }

  lemma Regroup2(a: nat, d: nat, b: nat)
    ensures a * (d * b) * d == (a * d) * (b * d)
  {
  }

  /** A gcd split keeps the number the list stands for and divides the product of the bases by d. */
  lemma SplitProduct(l: seq<Node>, c: nat, d: nat, a: nat, b: nat)
    requires c + 1 < |l| && d > 0 && l[c].m == a * d && l[c + 1].m == b * d
    ensures Product(Split(l, c, d)) == Product(l)
    ensures Bases(Split(l, c, d)) * d == Bases(l)
  {
    var x, y := l[c], l[c + 1];
    var mid := [Node(a, x.e), Node(d, x.e + y.e), Node(b, y.e)];
    assert l == l[..c] + [x, y] + l[c + 2..];
    assert Split(l, c, d) == l[..c] + mid + l[c + 2..] by {
      QuotExact(a, d);
      QuotExact(b, d);
    }
    assert Product(mid) == Product([x, y]) && Bases(mid) * d == Bases([x, y]) by {
      SplitMid(a, b, d, x.e, y.e);
    }
    ProductSplice(l[..c], [x, y], mid, l[c + 2..]);
    BasesSplice(l[..c], [x, y], mid, l[c + 2..], d);
  }

  /** A split by d = 1 between two nodes that are not 1 puts a 1 between them: one fewer such pair. */
  lemma {:induction false} SplitPairs(l: seq<Node>, c: nat)
    requires c + 1 < |l| && l[c].m != 1 && l[c + 1].m != 1
    ensures Pairs(Split(l, c, 1)) + 1 == Pairs(l)
    decreases c
  {
    var s := Split(l, c, 1);
    QuotExact(l[c].m, 1);
    QuotExact(l[c + 1].m, 1);
    assert s[c] == l[c] && s[c + 2] == l[c + 1];
    if c == 0 {
      assert s[1..][1..] == l[1..];
    } else {
      assert s[1..] == Split(l[1..], c - 1, 1);
      SplitPairs(l[1..], c - 1);
    }
  }

  lemma SplitPositive(l: seq<Node>, c: nat, d: nat, a: nat, b: nat)
    requires c + 1 < |l| && d > 0 && l[c].m == a * d && l[c + 1].m == b * d
    requires Positive(l)
    ensures Positive(Split(l, c, d))
    ensures Counted(l) ==> Counted(Split(l, c, d))
  {
    QuotExact(a, d);
    QuotExact(b, d);
    assert a >= 1 && b >= 1;
  }

  /** Dropping the 1s keeps the number the list stands for. */
  lemma {:induction false} NonOnesProduct(l: seq<Node>)
    ensures Product(NonOnes(l)) == Product(l)
    decreases |l|
  {
    if l != [] {
      var init, last := l[..|l| - 1], l[|l| - 1];
      assert l == init + [last];
      NonOnesProduct(init);
      ProductAppend(init, [last]);
      ProductAppend(NonOnes(init), if last.m != 1 then [last] else []);
      PowOne(last.e);
    }
  }

  /** NonOnes keeps exactly the nodes that are not 1, in order: it distributes over concatenation. */
  lemma {:induction false} NonOnesAppend(a: seq<Node>, b: seq<Node>)
    ensures NonOnes(a + b) == NonOnes(a) + NonOnes(b)
    decreases |b|
  {
    if b != [] {
      assert (a + b)[..|a + b| - 1] == a + b[..|b| - 1];
      NonOnesAppend(a, b[..|b| - 1]);
    } else {
      assert a + b == a;
    }
  }

  /** NonOnes keeps every node that is not 1 and nothing else. */
  lemma {:induction false} NonOnesMembers(l: seq<Node>)
    ensures forall n :: n in NonOnes(l) <==> n in l && n.m != 1
    decreases |l|
  {
    if l != [] {
      var init := l[..|l| - 1];
      assert l == init + [l[|l| - 1]];
      NonOnesMembers(init);
    }
  }

  /** What NonOnes keeps has no 1s, and keeps positive bases and exponents. */
  lemma {:induction false} NonOnesKeeps(l: seq<Node>)
    ensures NoOnes(NonOnes(l))
    ensures Positive(l) ==> Positive(NonOnes(l))
    ensures Counted(l) ==> Counted(NonOnes(l))
    decreases |l|
  {
    if l != [] {
      NonOnesKeeps(l[..|l| - 1]);
    }
  }

  // ---------------------------------------------------------------- coprimality

  /** The bases are pairwise coprime. */
  predicate Coprime(l: seq<Node>) {
    forall a, b :: 0 <= a < b < |l| ==> Gcd(l[a].m, l[b].m) == 1
  }

  /** Bases at least two places apart are coprime: what pair_refine_unreduced keeps while it splits. */
  predicate FarCoprime(l: seq<Node>) {
    forall a, b :: 0 <= a && a + 2 <= b < |l| ==> Gcd(l[a].m, l[b].m) == 1
  }

  /** The head divides m1 and every later base divides m2: what the nodes of pair_refine_unreduced come from. */
  predicate Origins(l: seq<Node>, m1: nat, m2: nat) {
    l != [] && Divides(l[0].m, m1) && forall k :: 1 <= k < |l| ==> Divides(l[k].m, m2)
  }

  /** The three nodes of a gcd split divide the two they replace. */
  lemma SplitParts(l: seq<Node>, c: nat)
    requires Positive(l) && c + 1 < |l|
    ensures var x, y, d := l[c].m, l[c + 1].m, Gcd(l[c].m, l[c + 1].m);
      && d > 0 && x == Quot(x, d) * d && y == Quot(y, d) * d
      && Divides(Quot(x, d), x) && Divides(d, x) && Divides(d, y) && Divides(Quot(y, d), y)
  {
    var x, y := l[c].m, l[c + 1].m;
    var d := Gcd(x, y);
    var s, t := GcdDivides(x, y);
    QuotExact(s, d);
    QuotExact(t, d);
    DividesMultiple(s, d);
    DividesMultiple(t, d);
    DividesMultiple(d, s);
    DividesMultiple(d, t);
  }

  /** Node k of a split divides node o of the list it came from. */
  lemma SplitFrom(l: seq<Node>, c: nat, k: nat, o: nat)
    requires Positive(l) && c + 1 < |l| && k < |l| + 1
    requires || (k < c && o == k) || (k == c && o == c) || (k == c + 1 && (o == c || o == c + 1))
             || (k == c + 2 && o == c + 1) || (k >= c + 3 && o == k - 1)
    ensures o < |l| && Divides(Split(l, c, Gcd(l[c].m, l[c + 1].m))[k].m, l[o].m)
  {
    var l' := Split(l, c, Gcd(l[c].m, l[c + 1].m));
    SplitParts(l, c);
    if k < c || k >= c + 3 {
      assert l'[k] == l[o];
      DividesSelf(l[o].m);
    }
  }

  /** One pair of a split list that are at least two places apart. */
  lemma SplitFarPair(l: seq<Node>, c: nat, a: nat, b: nat)
    requires Positive(l) && c + 1 < |l| && FarCoprime(l) && a + 2 <= b < |l| + 1
    ensures var l' := Split(l, c, Gcd(l[c].m, l[c + 1].m)); Gcd(l'[a].m, l'[b].m) == 1
  {
    var l' := Split(l, c, Gcd(l[c].m, l[c + 1].m));
    if a == c && b == c + 2 {
      QuotientsCoprime(l[c].m, l[c + 1].m);
    } else {
      var oa := if a <= c then a else a - 1;
      var ob := if b <= c then b else if b <= c + 2 then c + 1 else b - 1;
      SplitFrom(l, c, a, oa);
      SplitFrom(l, c, b, ob);
      CoprimeDivisors(l[oa].m, l[ob].m, l'[a].m, l'[b].m);
    }
  }

  /** A gcd split keeps bases two or more places apart coprime. */
  lemma SplitFarCoprime(l: seq<Node>, c: nat)
    requires Positive(l) && c + 1 < |l| && FarCoprime(l)
    ensures FarCoprime(Split(l, c, Gcd(l[c].m, l[c + 1].m)))
  {
    var l' := Split(l, c, Gcd(l[c].m, l[c + 1].m));
    forall a, b | 0 <= a && a + 2 <= b < |l'|
      ensures Gcd(l'[a].m, l'[b].m) == 1
    {
      SplitFarPair(l, c, a, b);
    }
  }

  /** A gcd split keeps the head dividing m1 and the later nodes dividing m2. */
  lemma SplitOrigins(l: seq<Node>, c: nat, m1: nat, m2: nat)
    requires Positive(l) && c + 1 < |l| && Origins(l, m1, m2)
    ensures Origins(Split(l, c, Gcd(l[c].m, l[c + 1].m)), m1, m2)
  {
    var l' := Split(l, c, Gcd(l[c].m, l[c + 1].m));
    SplitFrom(l, c, 0, 0);
    DividesTrans(l'[0].m, l[0].m, m1);
    forall k | 1 <= k < |l'|
      ensures Divides(l'[k].m, m2)
    {
      var o := if k <= c then k else if k <= c + 2 then c + 1 else k - 1;
      SplitFrom(l, c, k, o);
      DividesTrans(l'[k].m, l[o].m, m2);
    }
  }

  /** Once every pair of neighbours has a 1 in it, bases far apart being coprime makes all of them coprime. */
  lemma ReducedCoprime(l: seq<Node>)
    requires FarCoprime(l) && Reduced(l)
    ensures Coprime(l)
  {
    forall a, b | 0 <= a < b < |l|
      ensures Gcd(l[a].m, l[b].m) == 1
    {
      if b == a + 1 {
        CoprimeUnit(l[a].m, l[b].m);
      }
    }
  }

  /** Dropping the 1s keeps the bases pairwise coprime. */
  lemma {:induction false} NonOnesCoprime(l: seq<Node>)
    requires Coprime(l)
    ensures Coprime(NonOnes(l))
    decreases |l|
  {
    if l != [] {
      var init, last := l[..|l| - 1], l[|l| - 1];
      NonOnesCoprime(init);
      if last.m != 1 {
        var n := NonOnes(init);
        NonOnesMembers(init);
        forall a | 0 <= a < |n|
          ensures Gcd(n[a].m, last.m) == 1
        {
          var s :| 0 <= s < |init| && init[s] == n[a];
        }
      }
    }
  }

  /** What pair_refine keeps of the unreduced list: its head divides m1 or m2, and every later node divides m2. */
  lemma NonOnesOrigins(l: seq<Node>, m1: nat, m2: nat)
    requires Origins(l, m1, m2) && NonOnes(l) != []
    ensures Divides(NonOnes(l)[0].m, m1) || Divides(NonOnes(l)[0].m, m2)
    ensures forall k :: 1 <= k < |NonOnes(l)| ==> Divides(NonOnes(l)[k].m, m2)
  {
    var tl := l[1..];
    NonOnesCons(l);
    forall k | 0 <= k < |tl|
      ensures Divides(tl[k].m, m2)
    {
      assert tl[k] == l[k + 1];
    }
    NonOnesDivide(tl, m2);
    HeadThenDivide(NonOnes(l), if l[0].m != 1 then [l[0]] else [], NonOnes(tl), m1, m2);
  }

  /** A list made of at most one node dividing m1 followed by nodes dividing m2. */
  lemma HeadThenDivide(n: seq<Node>, h: seq<Node>, nt: seq<Node>, m1: nat, m2: nat)
    requires n == h + nt && n != [] && |h| <= 1 && (h != [] ==> Divides(h[0].m, m1))
    requires forall k :: 0 <= k < |nt| ==> Divides(nt[k].m, m2)
    ensures Divides(n[0].m, m1) || Divides(n[0].m, m2)
    ensures forall k :: 1 <= k < |n| ==> Divides(n[k].m, m2)
  {
    forall k | 1 <= k < |n|
      ensures Divides(n[k].m, m2)
    {
      assert n[k] == nt[k - |h|];
    }
    if h == [] {
      assert n[0] == nt[0];
    }
  }

  /** Dropping the 1s from a list that starts with a node. */
  lemma NonOnesCons(l: seq<Node>)
    requires l != []
    ensures NonOnes(l) == (if l[0].m != 1 then [l[0]] else []) + NonOnes(l[1..])
  {
    assert l == [l[0]] + l[1..];
    NonOnesAppend([l[0]], l[1..]);
    assert NonOnes([l[0]]) == NonOnes([]) + (if l[0].m != 1 then [l[0]] else []);
  }

  /** Every node kept from a list whose bases all divide m2 divides m2. */
  lemma NonOnesDivide(l: seq<Node>, m2: nat)
    requires forall k :: 0 <= k < |l| ==> Divides(l[k].m, m2)
    ensures forall k :: 0 <= k < |NonOnes(l)| ==> Divides(NonOnes(l)[k].m, m2)
  {
    NonOnesMembers(l);
    var n := NonOnes(l);
    forall k | 0 <= k < |n|
      ensures Divides(n[k].m, m2)
    {
      var s :| 0 <= s < |l| && l[s] == n[k];
    }
  }

  // ---------------------------------------------------------------- products of powers

  /** The product of the powers l[t].m^k[t]. */
  function Combo(l: seq<Node>, k: seq<nat>): nat
    requires |k| == |l|
  {
    if l == [] then 1 else Pow(l[0].m, k[0]) * Combo(l[1..], k[1..])
  }

  /** x is a product of powers of the bases of l. */
  ghost predicate Generates(l: seq<Node>, x: nat) {
    exists k: seq<nat> :: |k| == |l| && Combo(l, k) == x
  }

  /** Every base of l is a product of powers of the bases of l'. */
  ghost predicate Refines(l: seq<Node>, l': seq<Node>) {
    forall t :: 0 <= t < |l| ==> Generates(l', l[t].m)
  }

  lemma {:induction false} ComboZero(l: seq<Node>)
    ensures Combo(l, seq(|l|, i => 0)) == 1
    decreases |l|
  {
    if l != [] {
      assert seq(|l|, i => 0)[1..] == seq(|l| - 1, i => 0);
      ComboZero(l[1..]);
    }
  }

  lemma {:induction false} ComboUnit(l: seq<Node>, t: nat)
    requires t < |l|
    ensures Combo(l, seq(|l|, i => if i == t then 1 else 0)) == l[t].m
    decreases |l|
  {
    var u := seq(|l|, i => if i == t then 1 else 0);
    if t == 0 {
      assert u[1..] == seq(|l| - 1, i => 0);
      ComboZero(l[1..]);
      assert Pow(l[0].m, u[0]) == l[0].m * Pow(l[0].m, 0);
    } else {
      assert u[1..] == seq(|l| - 1, i => if i == t - 1 then 1 else 0);
      ComboUnit(l[1..], t - 1);
    }
  }

  lemma {:induction false} ComboMul(l: seq<Node>, k1: seq<nat>, k2: seq<nat>)
    requires |k1| == |l| && |k2| == |l|
    ensures Combo(l, seq(|l|, i requires 0 <= i < |l| => k1[i] + k2[i])) == Combo(l, k1) * Combo(l, k2)
    decreases |l|
  {
    if l != [] {
      var k := seq(|l|, i requires 0 <= i < |l| => k1[i] + k2[i]);
      assert k[1..] == seq(|l| - 1, i requires 0 <= i < |l| - 1 => k1[1..][i] + k2[1..][i]);
      ComboMul(l[1..], k1[1..], k2[1..]);
      PowAdd(l[0].m, k1[0], k2[0]);
      Swap(Pow(l[0].m, k1[0]), Pow(l[0].m, k2[0]), Combo(l[1..], k1[1..]), Combo(l[1..], k2[1..]));
    }
  }

  lemma GenOne(l: seq<Node>)
    ensures Generates(l, 1)
  {
    ComboZero(l);
  }

  lemma GenBase(l: seq<Node>, t: nat)
    requires t < |l|
    ensures Generates(l, l[t].m)
  {
    ComboUnit(l, t);
  }

  lemma GenMember(l: seq<Node>, n: Node)
    requires n in l
    ensures Generates(l, n.m)
  {
    var t :| 0 <= t < |l| && l[t] == n;
    GenBase(l, t);
  }

  lemma GenMul(l: seq<Node>, a: nat, b: nat)
    requires Generates(l, a) && Generates(l, b)
    ensures Generates(l, a * b)
  {
    var ka :| |ka| == |l| && Combo(l, ka) == a;
    var kb :| |kb| == |l| && Combo(l, kb) == b;
    ComboMul(l, ka, kb);
  }

  lemma {:induction false} GenPow(l: seq<Node>, a: nat, e: nat)
    requires Generates(l, a)
    ensures Generates(l, Pow(a, e))
    decreases e
  {
    if e == 0 {
      GenOne(l);
    } else {
      GenPow(l, a, e - 1);
      GenMul(l, a, Pow(a, e - 1));
    }
  }

  /** A product of powers of bases that are themselves products of powers of the bases of l' is one too. */
  lemma {:induction false} ComboRefines(l: seq<Node>, k: seq<nat>, l': seq<Node>)
    requires |k| == |l| && Refines(l, l')
    ensures Generates(l', Combo(l, k))
    decreases |l|
  {
    if l == [] {
      GenOne(l');
    } else {
      assert Refines(l[1..], l') by {
        forall t | 0 <= t < |l| - 1
          ensures Generates(l', l[1..][t].m)
        {
          assert l[1..][t] == l[t + 1];
        }
      }
      ComboRefines(l[1..], k[1..], l');
      assert Generates(l', l[0].m);
      GenPow(l', l[0].m, k[0]);
      GenMul(l', Pow(l[0].m, k[0]), Combo(l[1..], k[1..]));
    }
  }

  lemma GenTrans(l: seq<Node>, l': seq<Node>, x: nat)
    requires Refines(l, l') && Generates(l, x)
    ensures Generates(l', x)
  {
    var k :| |k| == |l| && Combo(l, k) == x;
    ComboRefines(l, k, l');
  }

  lemma RefinesTrans(l1: seq<Node>, l2: seq<Node>, l3: seq<Node>)
    requires Refines(l1, l2) && Refines(l2, l3)
    ensures Refines(l1, l3)
  {
    forall t | 0 <= t < |l1|
      ensures Generates(l3, l1[t].m)
    {
      GenTrans(l2, l3, l1[t].m);
    }
  }

  /** A list refines into any list that holds each of its nodes other than the 1s. */
  lemma RefinesMembers(l: seq<Node>, l': seq<Node>)
    requires forall t :: 0 <= t < |l| ==> l[t].m == 1 || l[t] in l'
    ensures Refines(l, l')
  {
    forall t | 0 <= t < |l|
      ensures Generates(l', l[t].m)
    {
      if l[t].m == 1 {
        GenOne(l');
      } else {
        GenMember(l', l[t]);
      }
    }
  }

  /** A gcd split refines the list: each of the two split nodes is the product of its quotient and d. */
  lemma SplitRefines(l: seq<Node>, c: nat)
    requires Positive(l) && c + 1 < |l|
    ensures Refines(l, Split(l, c, Gcd(l[c].m, l[c + 1].m)))
  {
    var l' := Split(l, c, Gcd(l[c].m, l[c + 1].m));
    SplitParts(l, c);
    forall t | 0 <= t < |l|
      ensures Generates(l', l[t].m)
    {
      if t == c || t == c + 1 {
        var q := if t == c then c else c + 2;
        GenBase(l', q);
        GenBase(l', c + 1);
        GenMul(l', l'[q].m, l'[c + 1].m);
      } else {
        assert l[t] == l'[if t < c then t else t + 1];
        GenBase(l', if t < c then t else t + 1);
      }
    }
  }

  /** Dropping the 1s refines the list. */
  lemma NonOnesRefines(l: seq<Node>)
    ensures Refines(l, NonOnes(l))
  {
    NonOnesMembers(l);
    RefinesMembers(l, NonOnes(l));
  }

  // ---------------------------------------------------------------- the routines

  /** One gcd split of two neighbours that are both other than 1 keeps the list's number and makes progress. */
  lemma SplitStep(l: seq<Node>, c: nat)
    requires Positive(l) && c + 1 < |l| && l[c].m != 1 && l[c + 1].m != 1
    ensures var l' := Split(l, c, Gcd(l[c].m, l[c + 1].m));
      Positive(l') && Product(l') == Product(l) && |l'| > |l|
      && (Counted(l) ==> Counted(l'))
      && (Bases(l') < Bases(l) || (Bases(l') == Bases(l) && Pairs(l') < Pairs(l)))
  {
    var d := Gcd(l[c].m, l[c + 1].m);
    var a, b := GcdDivides(l[c].m, l[c + 1].m);
    SplitProduct(l, c, d, a, b);
    SplitPositive(l, c, d, a, b);
    var l' := Split(l, c, d);
    BasesPositive(l');
    if d == 1 {
      SplitPairs(l, c);
      assert Bases(l') == Bases(l);
    } else {
      ScaleAbove(Bases(l'), d);
    }
  }

  lemma ScaleAbove(x: nat, d: nat)
    requires x >= 1 && d >= 2
    ensures x < x * d
  {
    assert x * d == x + x * (d - 1);
  }

  /** What a pass of pair_refine_unreduced keeps from the list l0 it starts with to the list l it has made. */
  ghost predicate PassKeeps(l0: seq<Node>, l: seq<Node>, m1: nat, m2: nat) {
    && Refines(l0, l)
    && (FarCoprime(l0) ==> FarCoprime(l))
    && (Origins(l0, m1, m2) ==> Origins(l, m1, m2))
  }

  /** A gcd split keeps the list refining the first one, bases far apart coprime, and the origins of the nodes. */
  lemma SplitKeeps(l0: seq<Node>, l: seq<Node>, c: nat, m1: nat, m2: nat)
    requires Positive(l) && c + 1 < |l| && PassKeeps(l0, l, m1, m2)
    ensures PassKeeps(l0, Split(l, c, Gcd(l[c].m, l[c + 1].m)), m1, m2)
  {
    SplitRefines(l, c);
    RefinesTrans(l0, l, Split(l, c, Gcd(l[c].m, l[c + 1].m)));
    if FarCoprime(l) {
      SplitFarCoprime(l, c);
    }
    if Origins(l, m1, m2) {
      SplitOrigins(l, c, m1, m2);
    }
  }

  /**
   * One pass of the inner loop of pair_refine_unreduced: walks the
   * neighbours (curr, next) from the head, splitting them by their gcd when
   * neither is 1, and otherwise moving on. boring stays true only when
   * nothing was split, and then every pair of neighbours has a 1 in it.
   */
  method RefinePass(l0: seq<Node>, ghost m1: nat, ghost m2: nat) returns (l: seq<Node>, boring: bool)
    requires Positive(l0)
    ensures Positive(l) && Product(l) == Product(l0) && |l| >= |l0|
    ensures Counted(l0) ==> Counted(l)
    ensures boring ==> l == l0 && Reduced(l)
    ensures !boring ==> Bases(l) < Bases(l0) || (Bases(l) == Bases(l0) && Pairs(l) < Pairs(l0))
    ensures Refines(l0, l)
    ensures FarCoprime(l0) ==> FarCoprime(l)
    ensures Origins(l0, m1, m2) ==> Origins(l, m1, m2)
  {
    l, boring := l0, true;
    RefinesMembers(l0, l0);
    var c := 0;
    while c + 1 < |l|
      invariant PassInv(l0, l, c, boring, m1, m2)
      decreases Bases(l), Pairs(l), |l| - c
    {
      if l[c].m != 1 && l[c + 1].m != 1 {
        var d := Gcd(l[c].m, l[c + 1].m);
        PassSplit(l0, l, c, boring, m1, m2);
        l, boring := Split(l, c, d), false;
      } else {
        c := c + 1;
      }
    }
  }

  /** l comes strictly before l0 in the order the splitting loop descends: a smaller product of bases, or as large with fewer pairs. */
  predicate Progress(l0: seq<Node>, l: seq<Node>) {
    Bases(l) < Bases(l0) || (Bases(l) == Bases(l0) && Pairs(l) < Pairs(l0))
  }

  /** The state of one pass of pair_refine_unreduced's inner loop at neighbour c. */
  ghost predicate PassInv(l0: seq<Node>, l: seq<Node>, c: nat, boring: bool, m1: nat, m2: nat) {
    && Positive(l) && Product(l) == Product(l0) && |l| >= |l0|
    && (Counted(l0) ==> Counted(l))
    && PassKeeps(l0, l, m1, m2)
    && (boring ==> l == l0 && forall k :: 0 <= k < c && k + 1 < |l| ==> l[k].m == 1 || l[k + 1].m == 1)
    && (!boring ==> Progress(l0, l))
  }

  /** Splitting neighbours c and c + 1 of the pass keeps its state and makes progress. */
  lemma PassSplit(l0: seq<Node>, l: seq<Node>, c: nat, boring: bool, m1: nat, m2: nat)
    requires PassInv(l0, l, c, boring, m1, m2) && c + 1 < |l| && l[c].m != 1 && l[c + 1].m != 1
    ensures var l' := Split(l, c, Gcd(l[c].m, l[c + 1].m));
      PassInv(l0, l', c, false, m1, m2) && Progress(l, l')
  {
    SplitStep(l, c);
    SplitKeeps(l0, l, c, m1, m2);
  }

  /**
   * pair_refine_unreduced: the list (m1, e1), (m2, e2), or the empty list
   * when both bases are 1, split by gcds until no two neighbours are both
   * other than 1. The number the list stands for never changes.
   */
  method PairRefineUnreduced(m1: nat, e1: nat, m2: nat, e2: nat) returns (l: seq<Node>)
    requires m1 >= 1 && m2 >= 1
    ensures m1 == 1 && m2 == 1 ==> l == []
    ensures Product(l) == Pow(m1, e1) * Pow(m2, e2)
    ensures Positive(l) && Reduced(l)
    ensures e1 >= 1 && e2 >= 1 ==> Counted(l)
    ensures m1 != 1 || m2 != 1 ==> |l| >= 2
    ensures Coprime(l) && Generates(l, m1) && Generates(l, m2)
    ensures m1 != 1 || m2 != 1 ==> Origins(l, m1, m2)
  {
    if m1 == 1 && m2 == 1 {
      PowOne(e1);
      PowOne(e2);
      GenOne([]);
      return [];
    }
    l := [Node(m1, e1), Node(m2, e2)];
    ghost var l0 := l;
    ProductTwo(l0[0], l0[1]);
    RefinesMembers(l0, l);
    DividesSelf(m1);
    DividesSelf(m2);
    var boring := false;
    while !boring
      invariant Positive(l) && Product(l) == Product(l0) && |l| >= 2
      invariant Counted(l0) ==> Counted(l)
      invariant boring ==> Reduced(l)
      invariant Refines(l0, l) && FarCoprime(l) && Origins(l, m1, m2)
      decreases Bases(l), Pairs(l), if boring then 0 else 1
    {
      ghost var prev := l;
      l, boring := RefinePass(l, m1, m2);
      RefinesTrans(l0, prev, l);
    }
    ReducedCoprime(l);
    assert Generates(l, l0[0].m) && Generates(l, l0[1].m);
  }

  /**
   * remove_ones: the nodes other than 1, in their order. An empty list
   * gives an empty list; a nonempty list of 1s only ends in the write
   * through the NULL tail.
   */
  method RemoveOnes(l: seq<Node>) returns (r: Result<seq<Node>>)
    ensures l == [] ==> r == Ok([])
    ensures l != [] && NonOnes(l) == [] ==> r == Abort(NullTail)
    ensures NonOnes(l) != [] ==> r == Ok(NonOnes(l))
  {
    if l == [] {
      return Ok([]);
    }
    var kept: seq<Node> := [];
    var k := 0;
    while k < |l|
      invariant k <= |l| && kept == NonOnes(l[..k])
    {
      assert l[..k + 1][..k] == l[..k];
      if l[k].m != 1 {
        kept := kept + [l[k]];
      }
      k := k + 1;
    }
    assert l[..k] == l;
    if kept == [] {
      return Abort(NullTail);
    }
    return Ok(kept);
  }

  /**
   * pair_refine: pair_refine_unreduced followed by remove_ones. With
   * positive exponents it never aborts, and the result stands for
   * m1^e1 * m2^e2 with no node equal to 1.
   */
  method PairRefine(m1: nat, e1: nat, m2: nat, e2: nat) returns (r: Result<seq<Node>>)
    requires m1 >= 1 && m2 >= 1
    ensures e1 >= 1 && e2 >= 1 ==> r.Ok?
    ensures r.Ok? ==> Product(r.value) == Pow(m1, e1) * Pow(m2, e2) && Positive(r.value) && NoOnes(r.value)
    ensures r.Ok? && e1 >= 1 && e2 >= 1 ==> Counted(r.value)
    ensures r.Ok? && (m1 != 1 || m2 != 1) ==> r.value != []
    ensures r.Ok? ==> Coprime(r.value) && Generates(r.value, m1) && Generates(r.value, m2)
    ensures r.Ok? && r.value != [] ==>
      && (Divides(r.value[0].m, m1) || Divides(r.value[0].m, m2))
      && forall k :: 1 <= k < |r.value| ==> Divides(r.value[k].m, m2)
  {
    var l := PairRefineUnreduced(m1, e1, m2, e2);
    r := RemoveOnes(l);
    PairRefineKept(m1, e1, m2, e2, l);
    PairRefineBases(m1, m2, l);
  }

  /** remove_ones keeps the unreduced bases pairwise coprime, still generating m1 and m2, and each still dividing what it came from. */
  lemma PairRefineBases(m1: nat, m2: nat, l: seq<Node>)
    requires Coprime(l) && Generates(l, m1) && Generates(l, m2)
    requires m1 != 1 || m2 != 1 ==> Origins(l, m1, m2)
    requires m1 == 1 && m2 == 1 ==> l == []
    ensures Coprime(NonOnes(l)) && Generates(NonOnes(l), m1) && Generates(NonOnes(l), m2)
    ensures NonOnes(l) != [] ==>
      && (Divides(NonOnes(l)[0].m, m1) || Divides(NonOnes(l)[0].m, m2))
      && forall k :: 1 <= k < |NonOnes(l)| ==> Divides(NonOnes(l)[k].m, m2)
  {
    NonOnesCoprime(l);
    NonOnesRefines(l);
    GenTrans(l, NonOnes(l), m1);
    GenTrans(l, NonOnes(l), m2);
    if NonOnes(l) != [] && (m1 != 1 || m2 != 1) {
      NonOnesOrigins(l, m1, m2);
    }
  }

  /** What remove_ones keeps of the unreduced pair refinement. */
  lemma PairRefineKept(m1: nat, e1: nat, m2: nat, e2: nat, l: seq<Node>)
    requires m1 >= 1 && m2 >= 1 && Product(l) == Pow(m1, e1) * Pow(m2, e2) && Positive(l)
    requires e1 >= 1 && e2 >= 1 ==> Counted(l)
    requires m1 == 1 && m2 == 1 ==> l == []
    ensures Product(NonOnes(l)) == Pow(m1, e1) * Pow(m2, e2) && Positive(NonOnes(l)) && NoOnes(NonOnes(l))
    ensures e1 >= 1 && e2 >= 1 ==> Counted(NonOnes(l))
    ensures e1 >= 1 && e2 >= 1 && (m1 != 1 || m2 != 1) ==> NonOnes(l) != []
  {
    NonOnesProduct(l);
    NonOnesKeeps(l);
    if e1 >= 1 && e2 >= 1 && (m1 != 1 || m2 != 1) {
      PowAbove(m1, e1);
      PowAbove(m2, e2);
      MoreThanOne(Pow(m1, e1), Pow(m2, e2));
    }
  }

  lemma MoreThanOne(p: nat, q: nat)
    requires p >= 1 && q >= 1 && (p > 1 || q > 1)
    ensures p * q > 1
  {
    if p > 1 {
      ScaleAtLeast(q, p);
    } else {
      ScaleAtLeast(p, q);
    }
  }

  /** fr_node_list_pop_front on a list value: the list without its head, and the empty list unchanged. */
  function PopFront(l: seq<Node>): (r: seq<Node>)
    ensures l == [] ==> r == []
    ensures l != [] ==> [l[0]] + r == l
  {
    if l == [] then [] else l[1..]
  }

  /** The state the main loop of augment_refinement leaves: L_{j+1}, (m, e) and what is left of L_j. */
  datatype Augmenting = Augmenting(done: seq<Node>, m: nat, e: nat, rest: seq<Node>)

  lemma Rearrange(dn: nat, pm: nat, pr: nat, pm': nat, tl: nat, ph: nat)
    requires pm' * tl == pm * ph
    ensures dn * tl * pm' * pr == dn * pm * (ph * pr)
  {
    calc {
      dn * tl * pm' * pr;
      dn * (pm' * tl) * pr;
      dn * (pm * ph) * pr;
      dn * pm * (ph * pr);
    }
  }

  /** Pair-refining (m, e) with the head h of L_j, and keeping the first node of the result as (m, e), leaves the number unchanged. */
  lemma ProductStep(done: seq<Node>, n: Node, h: Node, rest: seq<Node>, l': seq<Node>)
    requires l' != [] && Product(l') == Pow(n.m, n.e) * Pow(h.m, h.e)
    ensures Product(done + l'[1..] + [l'[0]] + rest) == Product(done + [n] + ([h] + rest))
  {
    var dn, pr := Product(done), Product(rest);
    assert Product(l') == Pow(l'[0].m, l'[0].e) * Product(l'[1..]);
    ProductAppend(done + l'[1..] + [l'[0]], rest);
    ProductAppend(done + l'[1..], [l'[0]]);
    ProductAppend(done, l'[1..]);
    ProductOne(l'[0]);
    ProductAppend(done + [n], [h] + rest);
    ProductAppend(done, [n]);
    ProductOne(n);
    ProductAppend([h], rest);
    ProductOne(h);
    Rearrange(dn, Pow(n.m, n.e), pr, Pow(l'[0].m, l'[0].e), Product(l'[1..]), Pow(h.m, h.e));
  }

  /** A head of L_j that is a 1 adds nothing to the number. */
  lemma ProductSkip(pre: seq<Node>, h: Node, rest: seq<Node>)
    requires h.m == 1
    ensures Product(pre + ([h] + rest)) == Product(pre + rest)
  {
    ProductAppend(pre, [h] + rest);
    ProductAppend([h], rest);
    ProductOne(h);
    PowOne(h.e);
    ProductAppend(pre, rest);
  }

  /**
   * The state of augment_refinement's main loop: rest is what is left of
   * L_j, the list done, (m, e), rest stands for m_{j+1} times the number
   * L_j stood for, done has no 1s, and m is 1 only when m_{j+1} was.
   */
  ghost predicate AugmentInv(mj: nat, lj: seq<Node>, done: seq<Node>, m: nat, e: nat, rest: seq<Node>) {
    && |rest| <= |lj| && rest == lj[|lj| - |rest|..]
    && Product(done + [Node(m, e)] + rest) == mj * Product(lj)
    && NoOnes(done) && Positive(done) && m >= 1
    && (mj != 1 ==> m != 1)
    && (mj == 1 ==> done == [] && m == 1 && e == 1 && rest == lj)
    && (Counted(lj) ==> Counted(done) && e >= 1)
  }

  lemma AugmentStart(mj: nat, lj: seq<Node>)
    requires mj >= 1
    ensures AugmentInv(mj, lj, [], mj, 1, lj)
  {
    assert [] + [Node(mj, 1)] + lj == [Node(mj, 1)] + lj;
    ProductAppend([Node(mj, 1)], lj);
    ProductOne(Node(mj, 1));
    assert Pow(mj, 0) == 1;
  }

  /** The head of what is left of L_j is a node of L_j. */
  lemma AugmentHead(mj: nat, lj: seq<Node>, done: seq<Node>, m: nat, e: nat, rest: seq<Node>)
    requires Positive(lj) && AugmentInv(mj, lj, done, m, e, rest) && rest != []
    ensures rest[0].m >= 1 && Positive(rest)
    ensures Counted(lj) ==> rest[0].e >= 1 && e >= 1
  {
    forall k | 0 <= k < |rest|
      ensures rest[k] == lj[|lj| - |rest| + k]
    {
    }
  }

  /** Pair-refining (m, e) with a head that is not 1 keeps the loop state. */
  lemma AugmentRefineStep(mj: nat, lj: seq<Node>, done: seq<Node>, m: nat, e: nat, rest: seq<Node>, l': seq<Node>)
    requires AugmentInv(mj, lj, done, m, e, rest) && rest != [] && m != 1
    requires l' != [] && Product(l') == Pow(m, e) * Pow(rest[0].m, rest[0].e) && Positive(l') && NoOnes(l')
    requires e >= 1 && rest[0].e >= 1 ==> Counted(l')
    requires Counted(lj) ==> rest[0].e >= 1
    ensures AugmentInv(mj, lj, done + l'[1..], l'[0].m, l'[0].e, rest[1..])
  {
    var h, rest' := rest[0], rest[1..];
    assert rest == [h] + rest';
    ProductStep(done, Node(m, e), h, rest', l');
    assert Node(l'[0].m, l'[0].e) == l'[0];
    assert rest' == lj[|lj| - |rest'|..];
    AppendTail(done, l');
  }

  /** Appending the tail of a refined list keeps the list properties. */
  lemma AppendTail(done: seq<Node>, l': seq<Node>)
    requires l' != [] && Positive(l') && NoOnes(l') && NoOnes(done) && Positive(done)
    ensures NoOnes(done + l'[1..]) && Positive(done + l'[1..])
    ensures l'[0].m >= 1 && l'[0].m != 1
    ensures Counted(done) && Counted(l') ==> Counted(done + l'[1..]) && l'[0].e >= 1
  {
    assert l'[0] == l'[..1][0];
  }

  /** A head that is 1 is dropped without changing the product. */
  lemma AugmentSkipStep(mj: nat, lj: seq<Node>, done: seq<Node>, m: nat, e: nat, rest: seq<Node>)
    requires AugmentInv(mj, lj, done, m, e, rest) && rest != [] && m != 1 && rest[0].m == 1
    ensures AugmentInv(mj, lj, done, m, e, rest[1..])
  {
    var h := rest[0];
    assert rest == [h] + rest[1..];
    ProductSkip(done + [Node(m, e)], h, rest[1..]);
  }

  /**
   * What augment_refinement keeps coprime: the bases of L_{j+1}, each of
   * them with m, each of them with what is left of L_j, and those left
   * among themselves.
   */
  predicate CoprimeState(done: seq<Node>, m: nat, rest: seq<Node>) {
    && Coprime(done) && Coprime(rest)
    && (forall k :: 0 <= k < |done| ==> Gcd(done[k].m, m) == 1)
    && (forall k, t :: 0 <= k < |done| && 0 <= t < |rest| ==> Gcd(done[k].m, rest[t].m) == 1)
  }

  /** The list L_{j+1}, (m, e), rest generates m_{j+1} and every base of L_j. */
  ghost predicate AugmentGen(mj: nat, lj: seq<Node>, done: seq<Node>, m: nat, e: nat, rest: seq<Node>) {
    var whole := done + [Node(m, e)] + rest;
    Generates(whole, mj) && Refines(lj, whole)
  }

  lemma AugmentGenStart(mj: nat, lj: seq<Node>)
    ensures AugmentGen(mj, lj, [], mj, 1, lj)
  {
    var whole := [] + [Node(mj, 1)] + lj;
    GenBase(whole, 0);
    forall t | 0 <= t < |lj|
      ensures lj[t] in whole
    {
      assert lj[t] == whole[t + 1];
    }
    RefinesMembers(lj, whole);
  }

  /** Replacing (m, e) and the head of L_j by a list that generates both keeps generating m_{j+1} and L_j. */
  lemma AugmentGenStep(mj: nat, lj: seq<Node>, done: seq<Node>, m: nat, e: nat, rest: seq<Node>, l': seq<Node>)
    requires AugmentGen(mj, lj, done, m, e, rest) && rest != [] && l' != []
    requires Generates(l', m) && Generates(l', rest[0].m)
    ensures AugmentGen(mj, lj, done + l'[1..], l'[0].m, l'[0].e, rest[1..])
  {
    var whole := done + [Node(m, e)] + rest;
    var whole' := done + l'[1..] + [Node(l'[0].m, l'[0].e)] + rest[1..];
    forall t | 0 <= t < |l'|
      ensures l'[t] in whole'
    {
      if t == 0 {
        assert l'[0] == whole'[|done| + |l'| - 1];
      } else {
        assert l'[t] == whole'[|done| + t - 1];
      }
    }
    RefinesMembers(l', whole');
    forall t | 0 <= t < |whole|
      ensures Generates(whole', whole[t].m)
    {
      if t < |done| {
        assert whole[t] == whole'[t];
        GenBase(whole', t);
      } else if t == |done| {
        GenTrans(l', whole', m);
      } else if t == |done| + 1 {
        GenTrans(l', whole', rest[0].m);
      } else {
        assert whole[t] == whole'[t + |l'| - 2];
        GenBase(whole', t + |l'| - 2);
      }
    }
    RefinesTrans(lj, whole, whole');
    GenTrans(whole, whole', mj);
  }

  /** Dropping a head of L_j that is 1 keeps generating m_{j+1} and L_j. */
  lemma AugmentGenSkip(mj: nat, lj: seq<Node>, done: seq<Node>, m: nat, e: nat, rest: seq<Node>)
    requires AugmentGen(mj, lj, done, m, e, rest) && rest != [] && rest[0].m == 1
    ensures AugmentGen(mj, lj, done, m, e, rest[1..])
  {
    var whole := done + [Node(m, e)] + rest;
    var whole' := done + [Node(m, e)] + rest[1..];
    forall t | 0 <= t < |whole| && whole[t].m != 1
      ensures whole[t] in whole'
    {
      if t <= |done| {
        assert whole[t] == whole'[t];
      } else {
        assert whole[t] == whole'[t - 1];
      }
    }
    RefinesMembers(whole, whole');
    RefinesTrans(lj, whole, whole');
    GenTrans(whole, whole', mj);
  }

  /** The part of augment_refinement's coprimality that concerns the new L_{j+1}. */
  lemma CoprimeStepDone(done: seq<Node>, m: nat, rest: seq<Node>, l': seq<Node>)
    requires CoprimeState(done, m, rest) && rest != [] && Positive(done) && Coprime(l') && l' != [] && Positive(l')
    requires forall j :: 1 <= j < |l'| ==> Divides(l'[j].m, rest[0].m)
    ensures Coprime(done + l'[1..])
  {
    var d' := done + l'[1..];
    forall a, b | 0 <= a < b < |d'|
      ensures Gcd(d'[a].m, d'[b].m) == 1
    {
      if b >= |done| {
        var j := b - |done| + 1;
        assert d'[b] == l'[j];
        if a < |done| {
          DividesSelf(done[a].m);
          CoprimeDivisors(done[a].m, rest[0].m, done[a].m, l'[j].m);
        } else {
          assert d'[a] == l'[a - |done| + 1];
        }
      }
    }
  }

  /** The part of augment_refinement's coprimality that concerns the new m. */
  lemma CoprimeStepHead(done: seq<Node>, m: nat, rest: seq<Node>, l': seq<Node>)
    requires CoprimeState(done, m, rest) && rest != [] && Positive(done) && Coprime(l') && l' != [] && Positive(l')
    requires Divides(l'[0].m, m) || Divides(l'[0].m, rest[0].m)
    ensures forall k :: 0 <= k < |done + l'[1..]| ==> Gcd((done + l'[1..])[k].m, l'[0].m) == 1
  {
    var d' := done + l'[1..];
    forall k | 0 <= k < |d'|
      ensures Gcd(d'[k].m, l'[0].m) == 1
    {
      if k < |done| {
        DividesSelf(done[k].m);
        if Divides(l'[0].m, m) {
          CoprimeDivisors(done[k].m, m, done[k].m, l'[0].m);
        } else {
          CoprimeDivisors(done[k].m, rest[0].m, done[k].m, l'[0].m);
        }
      } else {
        assert d'[k] == l'[k - |done| + 1];
        CoprimeSym(l'[0].m, d'[k].m);
      }
    }
  }

  /** The part of augment_refinement's coprimality that concerns what is left of L_j. */
  lemma CoprimeStepRest(done: seq<Node>, m: nat, rest: seq<Node>, l': seq<Node>)
    requires CoprimeState(done, m, rest) && rest != [] && Positive(rest) && l' != []
    requires forall j :: 1 <= j < |l'| ==> Divides(l'[j].m, rest[0].m)
    ensures Coprime(rest[1..])
    ensures var d' := done + l'[1..];
      forall k, t :: 0 <= k < |d'| && 0 <= t < |rest| - 1 ==> Gcd(d'[k].m, rest[1..][t].m) == 1
  {
    var d', r' := done + l'[1..], rest[1..];
    forall a, b | 0 <= a < b < |r'|
      ensures Gcd(r'[a].m, r'[b].m) == 1
    {
      assert r'[a] == rest[a + 1] && r'[b] == rest[b + 1];
    }
    forall k, t | 0 <= k < |d'| && 0 <= t < |r'|
      ensures Gcd(d'[k].m, r'[t].m) == 1
    {
      assert r'[t] == rest[t + 1];
      if k < |done| {
        assert d'[k] == done[k];
      } else {
        var j := k - |done| + 1;
        assert d'[k] == l'[j];
        DividesSelf(rest[t + 1].m);
        CoprimeDivisors(rest[0].m, rest[t + 1].m, l'[j].m, rest[t + 1].m);
      }
    }
  }

  /** Pair-refining (m, e) with the head of L_j keeps augment_refinement's coprimality. */
  lemma AugmentCoprimeStep(done: seq<Node>, m: nat, rest: seq<Node>, l': seq<Node>)
    requires CoprimeState(done, m, rest) && rest != [] && Positive(done) && Positive(rest)
    requires Coprime(l') && l' != [] && Positive(l')
    requires Divides(l'[0].m, m) || Divides(l'[0].m, rest[0].m)
    requires forall j :: 1 <= j < |l'| ==> Divides(l'[j].m, rest[0].m)
    ensures CoprimeState(done + l'[1..], l'[0].m, rest[1..])
  {
    CoprimeStepDone(done, m, rest, l');
    CoprimeStepHead(done, m, rest, l');
    CoprimeStepRest(done, m, rest, l');
  }

  /** Dropping a head of L_j keeps augment_refinement's coprimality. */
  lemma AugmentCoprimeSkip(done: seq<Node>, m: nat, rest: seq<Node>)
    requires CoprimeState(done, m, rest) && rest != []
    ensures CoprimeState(done, m, rest[1..])
  {
    var r' := rest[1..];
    forall a, b | 0 <= a < b < |r'|
      ensures Gcd(r'[a].m, r'[b].m) == 1
    {
      assert r'[a] == rest[a + 1] && r'[b] == rest[b + 1];
    }
    forall k, t | 0 <= k < |done| && 0 <= t < |r'|
      ensures Gcd(done[k].m, r'[t].m) == 1
    {
      assert r'[t] == rest[t + 1];
    }
  }

  /**
   * The main loop of augment_refinement: while L_j is nonempty and m is not
   * 1, pair-refine (m, e) with the head of L_j (unless that head is a 1),
   * keep the first node of the result as the new (m, e), move the rest to
   * L_{j+1}, and drop the head of L_j. The list L_{j+1}, (m, e), L_j
   * keeps standing for m_{j+1} times the number L_j stood for.
   */
  method AugmentLoop(mj: nat, lj: seq<Node>) returns (r: Result<Augmenting>)
    requires mj >= 1 && Positive(lj)
    ensures r.Ok? ==> Product(r.value.done + [Node(r.value.m, r.value.e)] + r.value.rest) == mj * Product(lj)
    ensures r.Ok? ==> NoOnes(r.value.done) && Positive(r.value.done) && r.value.m >= 1
    ensures r.Ok? && mj != 1 ==> r.value.rest == [] && r.value.m != 1
    ensures mj == 1 ==> r == Ok(Augmenting([], 1, 1, lj))
    ensures Counted(lj) ==> r.Ok? && Counted(r.value.done) && r.value.e >= 1
    ensures r.Ok? ==> AugmentGen(mj, lj, r.value.done, r.value.m, r.value.e, r.value.rest)
    ensures r.Ok? && Coprime(lj) ==> CoprimeState(r.value.done, r.value.m, r.value.rest)
  {
    var done: seq<Node> := [];
    var m, e := mj, 1;
    var rest := lj;
    AugmentStart(mj, lj);
    AugmentGenStart(mj, lj);
    while rest != [] && m != 1
      invariant AugmentInv(mj, lj, done, m, e, rest)
      invariant AugmentGen(mj, lj, done, m, e, rest)
      invariant Coprime(lj) ==> CoprimeState(done, m, rest)
      decreases |rest|
    {
      var h := rest[0];
      AugmentHead(mj, lj, done, m, e, rest);
      if h.m != 1 {
        var lp := PairRefine(m, e, h.m, h.e);
        if lp.Abort? {
          return Abort(lp.reason);
        }
        var l' := lp.value;
        AugmentRefineStep(mj, lj, done, m, e, rest, l');
        AugmentGenStep(mj, lj, done, m, e, rest, l');
        if Coprime(lj) {
          AugmentCoprimeStep(done, m, rest, l');
        }
        m, e := l'[0].m, l'[0].e;
        done := done + l'[1..];
      } else {
        AugmentSkipStep(mj, lj, done, m, e, rest);
        AugmentGenSkip(mj, lj, done, m, e, rest);
        if Coprime(lj) {
          AugmentCoprimeSkip(done, m, rest);
        }
      }
      rest := rest[1..];
    }
    return Ok(Augmenting(done, m, e, rest));
  }

  /**
   * augment_refinement with the final list L_{j+1}, Rest(L_j), (m, e) put
   * together as the algorithm intends: nothing of L_j is dropped. The
   * result stands for m_{j+1} times the number L_j stood for, and has no 1s.
   */
  method AugmentRefinement(mj: nat, lj: seq<Node>) returns (r: Result<seq<Node>>)
    requires mj >= 1 && Positive(lj)
    ensures r.Ok? ==> Product(r.value) == mj * Product(lj) && NoOnes(r.value) && Positive(r.value)
    ensures mj != 1 && Counted(lj) ==> r.Ok? && r.value != [] && Counted(r.value)
    ensures mj == 1 ==> r == (if NonOnes(lj) == [] then Abort(NullTail) else Ok(NonOnes(lj)))
    ensures r.Ok? ==> Generates(r.value, mj) && Refines(lj, r.value)
    ensures r.Ok? && Coprime(lj) ==> Coprime(r.value)
  {
    var a := AugmentLoop(mj, lj);
    if a.Abort? {
      return Abort(a.reason);
    }
    var whole := Assemble(a.value);
    AssembleFacts(mj, lj, a.value);
    r := RemoveOnes(whole);
    if r.Ok? {
      NonOnesProduct(whole);
      NonOnesKeeps(whole);
      AssembleGen(mj, lj, a.value);
      if Coprime(lj) {
        AssembleCoprime(a.value);
      }
    }
  }

  /** The joined list, without its 1s, still generates m_{j+1} and every base of L_j. */
  lemma AssembleGen(mj: nat, lj: seq<Node>, a: Augmenting)
    requires AugmentGen(mj, lj, a.done, a.m, a.e, a.rest)
    ensures Generates(NonOnes(Assemble(a)), mj) && Refines(lj, NonOnes(Assemble(a)))
  {
    var whole, joined := a.done + [Node(a.m, a.e)] + a.rest, Assemble(a);
    forall t | 0 <= t < |whole|
      ensures whole[t] in joined
    {
      if t < |a.done| {
        assert whole[t] == joined[t];
      } else if t == |a.done| {
        assert whole[t] == joined[|joined| - 1];
      } else {
        assert whole[t] == joined[t - 1];
      }
    }
    RefinesMembers(whole, joined);
    NonOnesRefines(joined);
    RefinesTrans(whole, joined, NonOnes(joined));
    RefinesTrans(lj, whole, NonOnes(joined));
    GenTrans(whole, NonOnes(joined), mj);
  }

  /** When L_j is used up, or m is 1, the joined list keeps its bases pairwise coprime, and so does it without its 1s. */
  lemma AssembleCoprime(a: Augmenting)
    requires CoprimeState(a.done, a.m, a.rest) && (a.rest == [] || a.m == 1)
    ensures Coprime(NonOnes(Assemble(a)))
  {
    var joined := Assemble(a);
    var nd, nr := |a.done|, |a.rest|;
    forall x, y | 0 <= x < y < |joined|
      ensures Gcd(joined[x].m, joined[y].m) == 1
    {
      if y == nd + nr {
        assert joined[y].m == a.m;
        if x < nd {
          assert joined[x] == a.done[x];
        } else {
          CoprimeUnit(joined[x].m, a.m);
        }
      } else if x < nd && y < nd {
        assert joined[x] == a.done[x] && joined[y] == a.done[y];
      } else if x < nd {
        assert joined[x] == a.done[x] && joined[y] == a.rest[y - nd];
      } else {
        assert joined[x] == a.rest[x - nd] && joined[y] == a.rest[y - nd];
      }
    }
    NonOnesCoprime(joined);
  }

  /** L_{j+1}, the rest of L_j and (m, e), joined in that order. */
  function Assemble(a: Augmenting): (r: seq<Node>)
    ensures |r| == |a.done| + |a.rest| + 1 && r[|r| - 1] == Node(a.m, a.e)
  {
    a.done + a.rest + [Node(a.m, a.e)]
  }

  /** What the joined list stands for, given what the main loop of augment_refinement leaves. */
  lemma AssembleFacts(mj: nat, lj: seq<Node>, a: Augmenting)
    requires mj >= 1 && Positive(lj)
    requires Product(a.done + [Node(a.m, a.e)] + a.rest) == mj * Product(lj)
    requires NoOnes(a.done) && Positive(a.done) && a.m >= 1
    requires mj != 1 ==> a.rest == [] && a.m != 1
    requires mj == 1 ==> a == Augmenting([], 1, 1, lj)
    ensures Product(Assemble(a)) == mj * Product(lj) && Positive(Assemble(a))
    ensures mj != 1 ==> NonOnes(Assemble(a)) != []
    ensures mj != 1 && Counted(a.done) && a.e >= 1 ==> Counted(Assemble(a))
    ensures mj == 1 ==> NonOnes(Assemble(a)) == NonOnes(lj)
  {
    ProductRotate(a.done, Node(a.m, a.e), a.rest);
    AssembleKeeps(a);
    if mj == 1 {
      AssembleUnit(lj);
    } else {
      AssembleLastStays(a);
    }
  }

  lemma AssembleKeeps(a: Augmenting)
    requires Positive(a.done) && Positive(a.rest) && a.m >= 1
    ensures Positive(Assemble(a))
    ensures Counted(a.done) && Counted(a.rest) && a.e >= 1 ==> Counted(Assemble(a))
  {
    var whole := Assemble(a);
    forall k | 0 <= k < |whole|
      ensures whole[k] == if k < |a.done| then a.done[k] else if k < |a.done| + |a.rest| then a.rest[k - |a.done|] else Node(a.m, a.e)
    {
    }
  }

  lemma AssembleUnit(lj: seq<Node>)
    ensures NonOnes(Assemble(Augmenting([], 1, 1, lj))) == NonOnes(lj)
  {
    assert Assemble(Augmenting([], 1, 1, lj)) == lj + [Node(1, 1)];
    NonOnesAppend(lj, [Node(1, 1)]);
    assert NonOnes([Node(1, 1)]) == NonOnes([]) + [];
  }

  lemma AssembleLastStays(a: Augmenting)
    requires a.m != 1
    ensures NonOnes(Assemble(a)) != []
  {
    var whole := Assemble(a);
    NonOnesMembers(whole);
    assert whole[|whole| - 1] in NonOnes(whole);
  }

  /** Moving a node from the middle of a list to its end keeps the number. */
  lemma ProductRotate(pre: seq<Node>, n: Node, post: seq<Node>)
    ensures Product(pre + post + [n]) == Product(pre + [n] + post)
  {
    ProductAppend(pre + post, [n]);
    ProductAppend(pre, post);
    ProductAppend(pre + [n], post);
    ProductAppend(pre, [n]);
    Swap3(Product(pre), Product(post), Product([n]));
  }

  lemma Swap3(d: nat, r: nat, p: nat)
    ensures d * r * p == d * p * r
  {
  }

  /**
   * augment_refinement as written: Rest(L_j) is popped once more before
   * being joined, at a point where L_j is empty unless m_{j+1} is 1.
   */
  function AssembleAsWritten(a: Augmenting): (r: seq<Node>)
    ensures a.rest == [] ==> r == a.done + [Node(a.m, a.e)]
  {
    a.done + PopFront(a.rest) + [Node(a.m, a.e)]
  }

  method AugmentAsWritten(mj: nat, lj: seq<Node>) returns (r: Result<seq<Node>>)
    requires mj >= 1 && Positive(lj)
    ensures mj != 1 && Counted(lj) ==> r.Ok? && Product(r.value) == mj * Product(lj) && NoOnes(r.value) && Counted(r.value)
    ensures mj == 1 ==> var w := AssembleAsWritten(Augmenting([], 1, 1, lj));
      r == (if NonOnes(w) == [] then Abort(NullTail) else Ok(NonOnes(w)))
  {
    var a := AugmentLoop(mj, lj);
    if a.Abort? {
      return Abort(a.reason);
    }
    var whole := AssembleAsWritten(a.value);
    r := RemoveOnes(whole);
    if mj != 1 && Counted(lj) {
      AsWrittenKeeps(mj, lj, a.value);
    }
  }

  /** When L_j is used up the extra pop does nothing, and the joined list is what the algorithm intends. */
  lemma AsWrittenKeeps(mj: nat, lj: seq<Node>, a: Augmenting)
    requires Product(a.done + [Node(a.m, a.e)] + a.rest) == mj * Product(lj)
    requires NoOnes(a.done) && Positive(a.done) && Counted(a.done) && a.m >= 1 && a.m != 1 && a.e >= 1 && a.rest == []
    ensures var w := AssembleAsWritten(a);
      NonOnes(w) != [] && Product(NonOnes(w)) == mj * Product(lj) && NoOnes(NonOnes(w)) && Counted(NonOnes(w))
  {
    var whole := AssembleAsWritten(a);
    assert whole == a.done + [Node(a.m, a.e)] + a.rest;
    assert whole[|whole| - 1] in NonOnes(whole) by {
      NonOnesMembers(whole);
    }
    assert Counted(whole);
    NonOnesProduct(whole);
    NonOnesKeeps(whole);
  }

  /**
   * The extra pop loses the head of L_j when m_{j+1} is 1: augmenting
   * [2, 3] by 1 keeps only 3, which does not stand for 1 * 2 * 3.
   */
  lemma DroppedHeadFinding()
    ensures var w := AssembleAsWritten(Augmenting([], 1, 1, [Node(2, 1), Node(3, 1)]));
      NonOnes(w) == [Node(3, 1)] && Product(NonOnes(w)) == 3
    ensures Product([Node(2, 1), Node(3, 1)]) == 6
  {
    var w := AssembleAsWritten(Augmenting([], 1, 1, [Node(2, 1), Node(3, 1)]));
    assert w == [Node(3, 1), Node(1, 1)];
    assert w[..1] == [Node(3, 1)];
    assert w[..1][..0] == [];
    ProductOne(Node(3, 1));
    ProductTwo(Node(2, 1), Node(3, 1));
  }

  /**
   * The loop of factor_refinement: inputs equal to 1 are skipped, every
   * other one is folded into the refinement by augment_refinement. The
   * refinement stands for the product of the inputs and has no 1s.
   */
  method FactorRefinementList(x: seq<nat>) returns (l: seq<Node>)
    requires forall i :: 0 <= i < |x| ==> x[i] >= 1
    ensures Product(l) == NatProduct(x)
    ensures NoOnes(l) && Positive(l) && Counted(l)
    ensures Coprime(l) && forall i :: 0 <= i < |x| ==> Generates(l, x[i])
  {
    l := [];
    var i := 0;
    while i < |x|
      invariant i <= |x| && IsRefinement(x[..i], l)
    {
      if x[i] != 1 {
        var r := AugmentRefinement(x[i], l);
        RefinementStep(x, i, l, r.value);
        l := r.value;
      } else {
        RefinementStep(x, i, l, l);
      }
      i := i + 1;
    }
    assert x[..i] == x;
  }

  /**
   * What factor_refinement builds for the inputs xs: a list standing for
   * their product, with no 1s and no zero exponent, pairwise coprime
   * bases, and every input a product of powers of those bases.
   */
  ghost predicate IsRefinement(xs: seq<nat>, l: seq<Node>) {
    && Product(l) == NatProduct(xs)
    && NoOnes(l) && Positive(l) && Counted(l) && Coprime(l)
    && forall j :: 0 <= j < |xs| ==> Generates(l, xs[j])
  }

  /** Folding input x[i] into a refinement of the inputs before it, as augment_refinement does, gives a refinement of x[..i + 1]. */
  lemma RefinementStep(x: seq<nat>, i: nat, l: seq<Node>, l': seq<Node>)
    requires i < |x| && IsRefinement(x[..i], l) && x[i] >= 1
    requires x[i] == 1 ==> l' == l
    requires x[i] != 1 ==> && Product(l') == x[i] * Product(l) && NoOnes(l') && Positive(l') && Counted(l')
                           && Coprime(l') && Generates(l', x[i]) && Refines(l, l')
    ensures IsRefinement(x[..i + 1], l')
  {
    var xs, v := x[..i], x[i];
    var xs' := xs + [v];
    assert x[..i + 1] == xs';
    assert xs'[..|xs'| - 1] == xs;
    assert Product(l') == NatProduct(xs') by {
      if v != 1 {
        Swap3(1, v, Product(l));
      }
    }
    GeneratedStep(xs, v, l, l');
  }

  lemma GeneratedStep(xs: seq<nat>, v: nat, l: seq<Node>, l': seq<Node>)
    requires forall j :: 0 <= j < |xs| ==> Generates(l, xs[j])
    requires v == 1 ==> l' == l
    requires v != 1 ==> Generates(l', v) && Refines(l, l')
    ensures forall j :: 0 <= j < |xs + [v]| ==> Generates(l', (xs + [v])[j])
  {
    var xs' := xs + [v];
    forall j | 0 <= j < |xs'|
      ensures Generates(l', xs'[j])
    {
      if j == |xs| {
        if v == 1 {
          GenOne(l');
        }
      } else {
        assert xs'[j] == xs[j];
        if v != 1 {
          GenTrans(l, l', xs[j]);
        }
      }
    }
  }

  /** The refinement as two parallel sequences of bases and exponents. */
  function Zip(base: seq<nat>, exp: seq<nat>): (r: seq<Node>)
    requires |base| == |exp|
    ensures |r| == |base| && forall i :: 0 <= i < |r| ==> r[i] == Node(base[i], exp[i])
  {
    if base == [] then [] else [Node(base[0], exp[0])] + Zip(base[1..], exp[1..])
  }

  /**
   * factor_refinement: the refinement of x, copied into fresh arrays of
   * bases and exponents of the same length.
   */
  method FactorRefinement(x: array<nat>) returns (ybase: array<nat>, yexp: array<nat>)
    requires forall i :: 0 <= i < x.Length ==> x[i] >= 1
    ensures fresh(ybase) && fresh(yexp) && ybase.Length == yexp.Length
    ensures Product(Zip(ybase[..], yexp[..])) == NatProduct(x[..])
    ensures NoOnes(Zip(ybase[..], yexp[..])) && Counted(Zip(ybase[..], yexp[..]))
    ensures Coprime(Zip(ybase[..], yexp[..]))
    ensures forall i :: 0 <= i < x.Length ==> Generates(Zip(ybase[..], yexp[..]), x[i])
  {
    var l := FactorRefinementList(x[..]);
    ybase := new nat[|l|];
    yexp := new nat[|l|];
    var i := 0;
    while i < |l|
      invariant i <= |l|
      invariant forall k :: 0 <= k < i ==> ybase[k] == l[k].m && yexp[k] == l[k].e
    {
      ybase[i], yexp[i] := l[i].m, l[i].e;
      i := i + 1;
    }
    assert Zip(ybase[..], yexp[..]) == l;
  }
}
