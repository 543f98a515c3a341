/** The binary draft of `Base<K>` in src/lib.rs: a number is stored as the
    list of positions of its set bits, highest first, and `compute` folds the
    list back into the sum of `K^e`. Conversion reads the binary digits of
    the number, so it ignores `K`; the round trip holds at `K = 2`. */
module BinaryExponents {
  import opened Arith

  /** `Base<K>` of src/lib.rs with its `Exponent` list; the const generic `K`
      is carried as the runtime field `base`. */
  datatype BinBase = BinBase(base: nat, exponents: seq<nat>)

  predicate StrictlyDecreasing(s: seq<nat>)
  {
    forall i, j :: 0 <= i < j < |s| ==> s[i] > s[j]
  }

  /** Bit `e` of `n` is set. */
  predicate Bit(n: nat, e: nat)
  {
    (n / Pow(2, e)) % 2 == 1
  }

  // ---------------------------------------------------------------------
  // compute

  /** The left fold `acc + K.pow(e)` over the exponent list. */
  function FoldPowers(k: nat, acc: nat, es: seq<nat>): nat
    decreases |es|
  {
    if es == [] then acc else FoldPowers(k, acc + Pow(k, es[0]), es[1..])
  }

  /** `Base<K>::compute`. */
  function Compute(b: BinBase): nat
  {
    FoldPowers(b.base, 0, b.exponents)
  }

  /** The sum of `k^e` over a list, written as a plain recursive sum. */
  function SumPowers(k: nat, es: seq<nat>): nat
  {
    if es == [] then 0 else Pow(k, es[0]) + SumPowers(k, es[1..])
  }

  lemma {:induction false} SumPowersAppend(k: nat, xs: seq<nat>, ys: seq<nat>)
    ensures SumPowers(k, xs + ys) == SumPowers(k, xs) + SumPowers(k, ys)
    decreases |xs|
  {
    if xs == [] {
      assert xs + ys == ys;
    } else {
      assert (xs + ys)[1..] == xs[1..] + ys;
      SumPowersAppend(k, xs[1..], ys);
    }
  }

  /** The fold adds the sum of the powers to its starting accumulator. */
  lemma {:induction false} FoldIsSum(k: nat, acc: nat, es: seq<nat>)
    ensures FoldPowers(k, acc, es) == acc + SumPowers(k, es)
    decreases |es|
  {
    if es != [] {
      FoldIsSum(k, acc + Pow(k, es[0]), es[1..]);
    }
  }

  /** `compute` is the sum of `K^e` over the stored exponents; an empty list
      computes to 0. */
  lemma ComputeIsSum(b: BinBase)
    ensures Compute(b) == SumPowers(b.base, b.exponents)
    ensures b.exponents == [] ==> Compute(b) == 0
  {
    FoldIsSum(b.base, 0, b.exponents);
  }

  // ---------------------------------------------------------------------
  // from

  /** The characters of `format!("{n:b}")`, least significant first, as
      booleans (`true` for '1'). Zero formats as the single digit "0". */
  function Bits(n: nat): (bits: seq<bool>)
    ensures |bits| >= 1
    ensures n >= 1 ==> bits[|bits| - 1]
  {
    if n < 2 then [n == 1] else [n % 2 == 1] + Bits(n / 2)
  }

  /** The counter values at which the scan meets a '1', starting at `c`. */
  function OnesFrom(bits: seq<bool>, c: nat): seq<nat>
  {
    if bits == [] then [] else (if bits[0] then [c] else []) + OnesFrom(bits[1..], c + 1)
  }

  /** `into_iter().rev().collect()`. */
  function Reverse(s: seq<nat>): (r: seq<nat>)
    ensures |r| == |s|
  {
    if s == [] then [] else Reverse(s[1..]) + [s[0]]
  }

  lemma {:induction false} ReverseAppend(xs: seq<nat>, ys: seq<nat>)
    ensures Reverse(xs + ys) == Reverse(ys) + Reverse(xs)
    decreases |xs|
  {
    if xs == [] {
      assert xs + ys == ys;
    } else {
      assert (xs + ys)[1..] == xs[1..] + ys;
      ReverseAppend(xs[1..], ys);
    }
  }

  /** Reference definition: the positions of the set bits of `n`, each raised
      by `c`, highest first. */
  function SetBitsFrom(n: nat, c: nat): seq<nat>
  {
    if n == 0 then [] else SetBitsFrom(n / 2, c + 1) + (if n % 2 == 1 then [c] else [])
  }

  function SetBits(n: nat): seq<nat>
  {
    SetBitsFrom(n, 0)
  }

  /** Scanning the binary digits upward and reversing gives the set-bit
      positions highest first. */
  lemma {:induction false} ScanMatchesSetBits(n: nat, c: nat)
    ensures Reverse(OnesFrom(Bits(n), c)) == SetBitsFrom(n, c)
    decreases n
  {
    if n < 2 {
      assert OnesFrom(Bits(n), c) == (if n == 1 then [c] else []) + OnesFrom([], c + 1);
      assert SetBitsFrom(n / 2, c + 1) == [];
    } else {
      var head: seq<nat> := if n % 2 == 1 then [c] else [];
      assert Bits(n)[1..] == Bits(n / 2);
      assert OnesFrom(Bits(n), c) == head + OnesFrom(Bits(n / 2), c + 1);
      ReverseAppend(head, OnesFrom(Bits(n / 2), c + 1));
      ScanMatchesSetBits(n / 2, c + 1);
      assert Reverse(head) == head;
    }
  }

  /** `Base<K>::from`: walks the binary digits of `n` from the least
      significant one up, pushing the counter for every '1', then reverses
      the list. `k` plays no part in the result. */
  method FromNat(k: nat, n: nat) returns (b: BinBase)
    ensures b.base == k
    ensures b.exponents == SetBits(n)
    ensures StrictlyDecreasing(b.exponents)
    ensures forall e: nat :: e in b.exponents <==> Bit(n, e)
    ensures forall e: nat :: e in b.exponents ==> Pow(2, e) <= n
    ensures k == 2 ==> Compute(b) == n
  {
    var bits := Bits(n);
    var list: seq<nat> := [];
    var count: nat := 0;
    while count < |bits|
      invariant count <= |bits|
      invariant list + OnesFrom(bits[count..], count) == OnesFrom(bits, 0)
    {
      ScanStep(bits, count, list);
      if bits[count] {
        list := list + [count];
      }
      count := count + 1;
    }
    assert bits[count..] == [];
    assert list + [] == list == OnesFrom(bits, 0);
    b := BinBase(k, Reverse(list));
    ScanMatchesSetBits(n, 0);
    SetBitsFacts(n);
  }

  /** One step of the scan: the digit at `count` moves from the unscanned
      part to the list when it is a '1'. */
  lemma ScanStep(bits: seq<bool>, count: nat, list: seq<nat>)
    requires count < |bits|
    ensures list + OnesFrom(bits[count..], count)
      == (list + (if bits[count] then [count] else [])) + OnesFrom(bits[count + 1..], count + 1)
  {
    var seen: seq<nat> := if bits[count] then [count] else [];
    assert bits[count..][1..] == bits[count + 1..];
    assert OnesFrom(bits[count..], count) == seen + OnesFrom(bits[count + 1..], count + 1);
    assert list + (seen + OnesFrom(bits[count + 1..], count + 1))
        == (list + seen) + OnesFrom(bits[count + 1..], count + 1);
  }

  // ---------------------------------------------------------------------
  // properties of the set-bit positions

  /** The positions come out strictly decreasing and never below `c`. */
  lemma {:induction false} SetBitsDecreasing(n: nat, c: nat)
    ensures StrictlyDecreasing(SetBitsFrom(n, c))
    ensures forall i :: 0 <= i < |SetBitsFrom(n, c)| ==> SetBitsFrom(n, c)[i] >= c
    decreases n
  {
    if n > 0 {
      SetBitsDecreasing(n / 2, c + 1);
    }
  }

  /** `e` is listed exactly when bit `e - c` of `n` is set. */
  lemma {:induction false} SetBitsMember(n: nat, c: nat, e: nat)
    ensures e in SetBitsFrom(n, c) <==> e >= c && Bit(n, e - c)
    decreases n
  {
    if n == 0 {
      if e >= c {
        DivModUnique(0, Pow(2, e - c), 0, 0);
      }
    } else {
      SetBitsMember(n / 2, c + 1, e);
      SetBitsMemberStep(n, c, e);
    }
  }

  lemma SetBitsMemberStep(n: nat, c: nat, e: nat)
    requires n > 0
    requires e in SetBitsFrom(n / 2, c + 1) <==> e >= c + 1 && Bit(n / 2, e - (c + 1))
    ensures e in SetBitsFrom(n, c) <==> e >= c && Bit(n, e - c)
  {
    var rest := SetBitsFrom(n / 2, c + 1);
    assert e in SetBitsFrom(n, c) <==> e in rest || (n % 2 == 1 && e == c);
    if e == c {
      SetBitsDecreasing(n / 2, c + 1);
      assert c !in rest;
    } else if e > c {
      assert Pow(2, e - c) == 2 * Pow(2, e - c - 1);
      DivDiv(n, 2, Pow(2, e - c - 1));
    }
  }

  /** A listed position `e` has `2^e <= n`: it lies below the binary length
      of `n`. */
  lemma SetBitsBound(n: nat, e: nat)
    requires e in SetBits(n)
    ensures Pow(2, e) <= n
  {
    SetBitsMember(n, 0, e);
    if n < Pow(2, e) {
      DivModUnique(n, Pow(2, e), 0, n);
    }
  }

  /** Summing `2^e` over the positions rebuilds `n`, scaled by `2^c`. */
  lemma {:induction false} SetBitsSum(n: nat, c: nat)
    ensures SumPowers(2, SetBitsFrom(n, c)) == n * Pow(2, c)
    decreases n
  {
    if n > 0 {
      SetBitsSum(n / 2, c + 1);
      SetBitsSumStep(n, c);
    }
  }

  lemma SetBitsSumStep(n: nat, c: nat)
    requires n > 0
    requires SumPowers(2, SetBitsFrom(n / 2, c + 1)) == (n / 2) * Pow(2, c + 1)
    ensures SumPowers(2, SetBitsFrom(n, c)) == n * Pow(2, c)
  {
    var low: seq<nat> := if n % 2 == 1 then [c] else [];
    SumPowersAppend(2, SetBitsFrom(n / 2, c + 1), low);
    assert SumPowers(2, low) == (n % 2) * Pow(2, c);
    PowSucc(2, c);
    HalveScale(n, Pow(2, c));
  }

  /** What the source promises of `from(n)`, gathered for `FromNat`. */
  lemma SetBitsFacts(n: nat)
    ensures StrictlyDecreasing(SetBits(n))
    ensures forall e: nat :: e in SetBits(n) <==> Bit(n, e)
    ensures forall e: nat :: e in SetBits(n) ==> Pow(2, e) <= n
    ensures Compute(BinBase(2, SetBits(n))) == n
  {
    SetBitsDecreasing(n, 0);
    forall e: nat ensures e in SetBits(n) <==> Bit(n, e) {
      SetBitsMember(n, 0, e);
    }
    forall e: nat | e in SetBits(n) ensures Pow(2, e) <= n {
      SetBitsBound(n, e);
    }
    RoundTrip(n);
  }

  lemma HalveScale(n: nat, p: nat)
    ensures (n / 2) * (2 * p) + (n % 2) * p == n * p
  {
    calc {
      (n / 2) * (2 * p) + (n % 2) * p;
      { MulAssocComm(n / 2, 2, p); }
      2 * ((n / 2) * p) + (n % 2) * p;
      (2 * (n / 2)) * p + (n % 2) * p;
      (2 * (n / 2) + n % 2) * p;
    }
  }

  /** At `K = 2`, `compute(from(n)) == n`. */
  lemma RoundTrip(n: nat)
    ensures Compute(BinBase(2, SetBits(n))) == n
  {
    ComputeIsSum(BinBase(2, SetBits(n)));
    SetBitsSum(n, 0);
  }

  /** The test at src/lib.rs:40-47: `Base::<100>::from(100)` lists [6, 5, 2],
      which by `FromNat`'s contract is the list for any base; and `from(0)`
      lists nothing, as "0" has no '1' digit. */
  lemma Hundred()
    ensures SetBits(100) == [6, 5, 2]
    ensures SetBits(0) == []
  {
    assert SetBitsFrom(3, 5) == [6, 5];
    assert SetBitsFrom(25, 2) == [6, 5, 2];
  }
}
