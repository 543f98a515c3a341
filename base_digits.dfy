/** The base-K `Base<K>` that src/goostein_sequence.rs imports and that
    src/tests.rs pins down: a number together with its base-K digits as
    `(Multiplier, Power)` terms, highest power first, and a `reduced` flag.
    The digits run from the bracketing exponent `e` (with `K^e <= n <
    K^(e+1)`) downward, one term per power, and stop as soon as the
    remainder is 0, so interior zero digits are kept and trailing ones are
    not. */
module BaseDigits {
  import opened Arith

  datatype Option<T> = None | Some(value: T)

  /** A `(Multiplier, Power)` pair: `multiplier * K^power`. */
  datatype Term = Term(multiplier: nat, power: nat)

  /** `Base<K>` with fields `number`, `exponents` and `reduced`; the const
      generic `K` is the runtime field `base`. */
  datatype BaseK = BaseK(base: nat, number: nat, exponents: seq<Term>, reduced: bool)

  /** The value of a term list: the sum of `multiplier * k^power`. */
  function Eval(k: nat, ts: seq<Term>): nat
  {
    if ts == [] then 0 else ts[0].multiplier * Pow(k, ts[0].power) + Eval(k, ts[1..])
  }

  /** `Base<K>::compute`. */
  function Compute(b: BaseK): nat
  {
    Eval(b.base, b.exponents)
  }

  /** `Into<u32> for Base<K>`: the stored number. */
  function Into(b: BaseK): nat
  {
    b.number
  }

  /** No power in the list reaches `k`, so no hereditary expansion is
      needed at base `k`. */
  predicate AllPowersBelow(k: nat, ts: seq<Term>)
  {
    forall i :: 0 <= i < |ts| ==> ts[i].power < k
  }

  /** `ts` holds base-`k` digits for the consecutive powers `e, e-1, ...`,
      and unless it is a single term its last digit is nonzero: the shape
      the decomposition emits. */
  predicate DigitList(k: nat, ts: seq<Term>, e: nat)
  {
    1 <= |ts| <= e + 1
    && (forall i :: 0 <= i < |ts| ==> ts[i].power == e - i && ts[i].multiplier < k)
    && (|ts| == 1 || ts[|ts| - 1].multiplier != 0)
  }

  // ---------------------------------------------------------------------
  // the bracketing exponent and is_power_of

  /** The exponent `e` with `k^e <= n < k^(e+1)` (0 for `n < k`). */
  function Log(k: nat, n: nat): (e: nat)
    requires k >= 2
    ensures n >= 1 ==> Pow(k, e) <= n
    ensures n < Pow(k, e + 1)
    ensures n >= k ==> e >= 1
    decreases n
  {
    if n < k then 0
    else
      DivShrinks(n, k);
      var e := Log(k, n / k);
      LogStep(k, n, e);
      e + 1
  }

  /** A bracket of `n / k` at `e` is a bracket of `n` at `e + 1`. */
  lemma LogStep(k: nat, n: nat, e: nat)
    requires 2 <= k <= n
    requires n / k >= 1 ==> Pow(k, e) <= n / k
    requires n / k < Pow(k, e + 1)
    ensures Pow(k, e + 1) <= n < Pow(k, e + 1 + 1)
  {
    DivAtLeastOne(n, k);
    BracketStep(k, n, Pow(k, e), Pow(k, e + 1));
    PowSucc(k, e);
    PowSucc(k, e + 1);
  }

  /** From a bracket of `n / k` to a bracket of `n`, one power higher. */
  lemma BracketStep(k: nat, n: nat, lo: nat, hi: nat)
    requires k >= 2 && lo <= n / k < hi
    ensures k * lo <= n < k * hi
  {
    MulLe(lo, n / k, k);
    MulLessLeft(n / k, hi, k);
  }
  /** Only one exponent brackets `n`. */
  lemma LogUnique(k: nat, n: nat, e: nat)
    requires k >= 2 && Pow(k, e) <= n < Pow(k, e + 1)
    ensures e == Log(k, n)
  {
    var l := Log(k, n);
    if e < l {
      PowMonotone(k, e + 1, l);
    } else if l < e {
      PowMonotone(k, l + 1, e);
    }
  }

  /** `is_power_of(n, k)`: `None` when `n < k`; otherwise the bracketing
      exponent `e`, flagged when `n` is exactly `k^e`. */
  function IsPowerOf(n: nat, k: nat): (r: Option<(bool, nat)>)
    requires k >= 2
    ensures r.None? <==> n < k
    ensures r.Some? ==> r.value.1 >= 1 && Pow(k, r.value.1) <= n < Pow(k, r.value.1 + 1)
    ensures r.Some? ==> (r.value.0 <==> n == Pow(k, r.value.1))
  {
    if n < k then None
    else
      var e := Log(k, n);
      Some((n == Pow(k, e), e))
  }

  // ---------------------------------------------------------------------
  // decomposition

  /** The digits of `m` from power `e` downward: the quotient by `k^e`,
      then the remainder's digits, stopping once the remainder is 0. */
  function Digits(k: nat, m: nat, e: nat): (ts: seq<Term>)
    requires k >= 2 && m < Pow(k, e + 1)
    ensures DigitList(k, ts, e)
    ensures m > 0 ==> ts[|ts| - 1].multiplier != 0
    decreases e
  {
    var p := Pow(k, e);
    DigitStep(k, m, e, p);
    var d, r := m / p, m % p;
    if e == 0 || r == 0 then
      [Term(d, e)]
    else
      assert r < Pow(k, e - 1 + 1);
      var rest := Digits(k, r, e - 1);
      DigitListCons(k, d, e, rest);
      [Term(d, e)] + rest
  }

  /** The arithmetic behind one step of `Digits`: the quotient by `k^e` is a
      digit, and at power 0 the whole number is that digit. */
  lemma DigitStep(k: nat, m: nat, e: nat, p: nat)
    requires k >= 2 && p == Pow(k, e) && m < Pow(k, e + 1)
    ensures 0 <= m / p < k && 0 <= m % p < p
    ensures m == (m / p) * p + m % p
    ensures e == 0 ==> m % p == 0 && m / p == m
    ensures m > 0 && m % p == 0 ==> m / p != 0
  {
    PowSucc(k, e);
    DivFacts(m, p, k);
    if e == 0 {
      DivModUnique(m, 1, m, 0);
    }
  }
  /** Putting a digit for power `e` in front of a digit list from `e - 1`. */
  lemma DigitListCons(k: nat, d: nat, e: nat, rest: seq<Term>)
    requires d < k && e >= 1 && DigitList(k, rest, e - 1)
    requires rest[|rest| - 1].multiplier != 0
    ensures DigitList(k, [Term(d, e)] + rest, e)
    ensures ([Term(d, e)] + rest)[1..] == rest
    ensures ([Term(d, e)] + rest)[|rest|] == rest[|rest| - 1]
  {
    var ts := [Term(d, e)] + rest;
    forall i | 0 <= i < |ts|
      ensures ts[i].power == e - i && ts[i].multiplier < k
    {
      if i > 0 {
        assert ts[i] == rest[i - 1];
      }
    }
  }

  /** `Base::<K>::from(n)`. */
  function FromNumber(k: nat, n: nat): (b: BaseK)
    requires k >= 2
    ensures b.base == k && b.number == n
    ensures DigitList(k, b.exponents, Log(k, n))
    ensures b.reduced <==> AllPowersBelow(k, b.exponents)
  {
    var ts := Digits(k, n, Log(k, n));
    BaseK(k, n, ts, AllPowersBelow(k, ts))
  }

  // ---------------------------------------------------------------------
  // round trip and canonical form

  /** The digits evaluate back to the number they were taken from. */
  lemma {:induction false} DigitsEval(k: nat, m: nat, e: nat)
    requires k >= 2 && m < Pow(k, e + 1)
    ensures Eval(k, Digits(k, m, e)) == m
    decreases e
  {
    var p := Pow(k, e);
    DigitStep(k, m, e, p);
    var d, r := m / p, m % p;
    if e == 0 || r == 0 {
      assert Digits(k, m, e) == [Term(d, e)];
      EvalCons(k, Term(d, e), []);
    } else {
      assert r < Pow(k, e - 1 + 1);
      var rest := Digits(k, r, e - 1);
      assert Digits(k, m, e) == [Term(d, e)] + rest;
      DigitsEval(k, r, e - 1);
      EvalCons(k, Term(d, e), rest);
    }
  }

  lemma EvalCons(k: nat, t: Term, rest: seq<Term>)
    ensures Eval(k, [t] + rest) == t.multiplier * Pow(k, t.power) + Eval(k, rest)
  {
    assert ([t] + rest)[1..] == rest;
  }

  /** `compute()`, `number` and `Into<u32>` all give back `n`. */
  lemma FromNumberRoundTrip(k: nat, n: nat)
    requires k >= 2
    ensures Compute(FromNumber(k, n)) == n
    ensures FromNumber(k, n).number == n && Into(FromNumber(k, n)) == n
  {
    DigitsEval(k, n, Log(k, n));
  }

  /** A nonempty term list whose last multiplier is nonzero has a positive
      value. */
  lemma {:induction false} EvalPositive(k: nat, ts: seq<Term>)
    requires k >= 1 && ts != [] && ts[|ts| - 1].multiplier != 0
    ensures Eval(k, ts) > 0
    decreases |ts|
  {
    if |ts| == 1 {
      MulMonotone(ts[0].multiplier, Pow(k, ts[0].power));
    } else {
      EvalPositive(k, ts[1..]);
    }
  }

  /** Every digit list is what `Digits` produces from its own value: the
      decomposition is the only such list for a number. */
  lemma {:induction false} DigitsUnique(k: nat, ts: seq<Term>, e: nat)
    requires k >= 2 && DigitList(k, ts, e)
    ensures Eval(k, ts) < Pow(k, e + 1)
    ensures Digits(k, Eval(k, ts), e) == ts
    decreases e
  {
    if |ts| == 1 {
      DigitsUniqueLast(k, ts, e);
    } else {
      DigitListTail(k, ts, e);
      DigitsUnique(k, ts[1..], e - 1);
      DigitsUniqueStep(k, ts, e);
    }
  }

  lemma DigitsUniqueLast(k: nat, ts: seq<Term>, e: nat)
    requires k >= 2 && DigitList(k, ts, e) && |ts| == 1
    ensures Eval(k, ts) < Pow(k, e + 1)
    ensures Digits(k, Eval(k, ts), e) == ts
  {
    var d := ts[0].multiplier;
    assert ts == [Term(d, e)];
    assert Eval(k, ts) == d * Pow(k, e) + 0;
    DigitsOfTerm(k, Eval(k, ts), e, d, 0);
  }

  lemma DigitsUniqueStep(k: nat, ts: seq<Term>, e: nat)
    requires k >= 2 && DigitList(k, ts, e) && |ts| >= 2 && e >= 1
    requires Eval(k, ts[1..]) < Pow(k, e - 1 + 1)
    requires Digits(k, Eval(k, ts[1..]), e - 1) == ts[1..]
    ensures Eval(k, ts) < Pow(k, e + 1)
    ensures Digits(k, Eval(k, ts), e) == ts
  {
    var d := ts[0].multiplier;
    var rest := ts[1..];
    assert ts == [Term(d, e)] + rest;
    assert Eval(k, ts) == d * Pow(k, e) + Eval(k, rest);
    EvalPositive(k, rest);
    DigitsOfTerm(k, Eval(k, ts), e, d, Eval(k, rest));
  }

  /** One step of `Digits` on a number written as a leading digit `d` at
      power `e` plus a remainder below `k^e`. */
  lemma DigitsOfTerm(k: nat, m: nat, e: nat, d: nat, r: nat)
    requires k >= 2 && d < k && r < Pow(k, e) && m == d * Pow(k, e) + r
    ensures m < Pow(k, e + 1)
    ensures Digits(k, m, e)
      == if e == 0 || r == 0 then [Term(d, e)] else [Term(d, e)] + Digits(k, r, e - 1)
  {
    var p := Pow(k, e);
    MulLessLeft(d, k, p);
    PowSucc(k, e);
    DivModUnique(m, p, d, r);
    assert r < Pow(k, e - 1 + 1) || e == 0;
  }

  /** A digit list whose leading digit is nonzero is exactly the
      decomposition of its value. */
  lemma FromNumberCanonical(k: nat, ts: seq<Term>)
    requires k >= 2 && ts != [] && DigitList(k, ts, ts[0].power) && ts[0].multiplier >= 1
    ensures FromNumber(k, Eval(k, ts)).exponents == ts
  {
    var e := ts[0].power;
    var m := Eval(k, ts);
    DigitsUnique(k, ts, e);
    MulMonotone(ts[0].multiplier, Pow(k, e));
    assert Pow(k, e) <= m;
    LogUnique(k, m, e);
  }

  /** The decomposition of a positive number starts at its bracketing
      exponent with a nonzero digit and ends with a nonzero digit; the
      multipliers are base-`k` digits and the powers run down one by one. */
  lemma FromNumberShape(k: nat, n: nat)
    requires k >= 2 && n >= 1
    ensures var ts := FromNumber(k, n).exponents;
      ts[0].power == Log(k, n) && ts[0].multiplier >= 1
      && ts[|ts| - 1].multiplier >= 1
      && (forall i :: 0 <= i < |ts| ==> ts[i].multiplier < k)
      && (forall i :: 0 < i < |ts| ==> ts[i].power + 1 == ts[i - 1].power)
  {
    DivAtLeastOne(n, Pow(k, Log(k, n)));
  }

  /** A decomposition is reduced exactly when the number is below `k^k`,
      that is when its top power is below `k`. */
  lemma ReducedIff(k: nat, n: nat)
    requires k >= 2
    ensures FromNumber(k, n).reduced <==> n < Pow(k, k)
    ensures FromNumber(k, n).reduced <==> Log(k, n) < k
  {
    var e := Log(k, n);
    var ts := FromNumber(k, n).exponents;
    if e < k {
      PowMonotone(k, e + 1, k);
      assert AllPowersBelow(k, ts);
    } else {
      assert ts[0].power == e;
      if n >= 1 {
        PowMonotone(k, k, e);
      }
    }
  }

  /** Every power in the decomposition of a positive number is smaller than
      the number, so expanding powers again always terminates. */
  lemma PowersBelowNumber(k: nat, n: nat)
    requires k >= 2 && n >= 1
    ensures forall i :: 0 <= i < |FromNumber(k, n).exponents| ==> FromNumber(k, n).exponents[i].power < n
  {
    ExponentBelowPow(k, Log(k, n));
  }

  // ---------------------------------------------------------------------
  // display

  const Alphabet: string := "0123456789abcdefghijklmnopqrstuvwxyz"

  function DigitChar(d: nat): char
    requires d < 36
  {
    Alphabet[d]
  }

  /** Multipliers below 36, so that each has a symbol. */
  predicate Spellable(ts: seq<Term>)
  {
    forall i :: 0 <= i < |ts| ==> ts[i].multiplier < 36
  }

  /** One symbol per power slot from `slots - 1` down to 0; a slot without
      a term shows '0'. */
  function Render(ts: seq<Term>, slots: nat): string
    requires Spellable(ts)
    decreases slots
  {
    if slots == 0 then ""
    else if ts != [] && ts[0].power == slots - 1 then [DigitChar(ts[0].multiplier)] + Render(ts[1..], slots - 1)
    else "0" + Render(ts, slots - 1)
  }

  /** `to_string` of a `Base<K>`: its digits from the highest power down to
      power 0. */
  function ToString(b: BaseK): string
    requires 2 <= b.base <= 36
    requires forall i :: 0 <= i < |b.exponents| ==> b.exponents[i].multiplier < b.base
  {
    if b.exponents == [] then "" else Render(b.exponents, b.exponents[0].power + 1)
  }

  /** Reference radix conversion by repeated division: the standard
      positional digits of `n` in base `k`, most significant first. */
  function Radix(k: nat, n: nat): string
    requires 2 <= k <= 36
    decreases n
  {
    if n < k then [DigitChar(n)]
    else
      DivShrinks(n, k);
      DivMod(n, k);
      Radix(k, n / k) + [DigitChar(n % k)]
  }

  // The proof that `ToString` agrees with `Radix` goes through the full
  // digit list of repeated division: trimming its trailing zero digits
  // gives a digit list of the same value, which by `FromNumberCanonical`
  // is the decomposition.

  /** `c` copies of the digit '0'. */
  function Zeros(c: nat): string
  {
    if c == 0 then "" else "0" + Zeros(c - 1)
  }

  /** The symbols of the multipliers, one per term. */
  function Spell(ts: seq<Term>): (s: string)
    requires Spellable(ts)
    ensures |s| == |ts|
    ensures forall i :: 0 <= i < |ts| ==> s[i] == DigitChar(ts[i].multiplier)
  {
    if ts == [] then "" else [DigitChar(ts[0].multiplier)] + Spell(ts[1..])
  }

  /** Every power one higher: the digits of `n / k` seen as digits of `n`. */
  function Raise(ts: seq<Term>): (r: seq<Term>)
    ensures |r| == |ts|
    ensures forall i :: 0 <= i < |ts| ==> r[i] == Term(ts[i].multiplier, ts[i].power + 1)
  {
    seq(|ts|, i requires 0 <= i < |ts| => Term(ts[i].multiplier, ts[i].power + 1))
  }

  /** All digits of `n` by repeated division, one term per power from the
      top one down to 0. */
  function RadixTerms(k: nat, n: nat): (ts: seq<Term>)
    requires k >= 2
    ensures |ts| >= 1
    ensures forall i :: 0 <= i < |ts| ==> ts[i].power == |ts| - 1 - i && ts[i].multiplier < k
    ensures n >= 1 ==> ts[0].multiplier >= 1
    decreases n
  {
    if n < k then [Term(n, 0)]
    else
      DivShrinks(n, k);
      var hi := RadixTerms(k, n / k);
      RadixTermsStep(k, n, hi);
      Raise(hi) + [Term(n % k, 0)]
  }

  lemma RadixTermsStep(k: nat, n: nat, hi: seq<Term>)
    requires 2 <= k <= n && |hi| >= 1
    requires forall i :: 0 <= i < |hi| ==> hi[i].power == |hi| - 1 - i && hi[i].multiplier < k
    requires n / k >= 1 ==> hi[0].multiplier >= 1
    ensures var ts := Raise(hi) + [Term(n % k, 0)];
      (forall i :: 0 <= i < |ts| ==> ts[i].power == |ts| - 1 - i && ts[i].multiplier < k)
      && ts[0].multiplier >= 1
  {
    DivAtLeastOne(n, k);
    var ts := Raise(hi) + [Term(n % k, 0)];
    forall i | 0 <= i < |ts|
      ensures ts[i].power == |ts| - 1 - i && ts[i].multiplier < k
    {
      if i < |hi| {
        assert ts[i] == Raise(hi)[i];
      }
    }
  }

  /** Drops trailing zero digits, keeping at least one term. */
  function Trim(ts: seq<Term>): (r: seq<Term>)
    requires ts != []
    ensures 1 <= |r| <= |ts| && r == ts[..|r|]
    ensures |r| == 1 || r[|r| - 1].multiplier != 0
    ensures forall i :: |r| <= i < |ts| ==> ts[i].multiplier == 0
    decreases |ts|
  {
    if |ts| > 1 && ts[|ts| - 1].multiplier == 0 then Trim(ts[..|ts| - 1]) else ts
  }

  lemma {:induction false} EvalAppend(k: nat, xs: seq<Term>, ys: seq<Term>)
    ensures Eval(k, xs + ys) == Eval(k, xs) + Eval(k, ys)
    decreases |xs|
  {
    if xs == [] {
      assert xs + ys == ys;
    } else {
      assert (xs + ys)[1..] == xs[1..] + ys;
      EvalAppend(k, xs[1..], ys);
    }
  }

  /** Terms with zero multipliers add nothing. */
  lemma {:induction false} EvalZeros(k: nat, ts: seq<Term>)
    requires forall i :: 0 <= i < |ts| ==> ts[i].multiplier == 0
    ensures Eval(k, ts) == 0
    decreases |ts|
  {
    if ts != [] {
      EvalZeros(k, ts[1..]);
    }
  }

  /** Raising every power multiplies the value by `k`. */
  lemma {:induction false} EvalRaise(k: nat, ts: seq<Term>)
    ensures Eval(k, Raise(ts)) == k * Eval(k, ts)
    decreases |ts|
  {
    if ts != [] {
      var t := ts[0];
      var t' := Term(t.multiplier, t.power + 1);
      assert Raise(ts) == [t'] + Raise(ts[1..]);
      EvalCons(k, t', Raise(ts[1..]));
      EvalRaise(k, ts[1..]);
      ScaledTerm(k, t.multiplier, t.power);
      Distribute(k, t.multiplier * Pow(k, t.power), Eval(k, ts[1..]));
    }
  }

  lemma ScaledTerm(k: nat, m: nat, p: nat)
    ensures m * Pow(k, p + 1) == k * (m * Pow(k, p))
  {
    PowSucc(k, p);
    MulAssocComm(m, k, Pow(k, p));
  }

  lemma Distribute(k: nat, a: nat, b: nat)
    ensures k * a + k * b == k * (a + b)
  {
  }

  /** The full digit list evaluates to `n`. */
  lemma {:induction false} RadixTermsEval(k: nat, n: nat)
    requires k >= 2
    ensures Eval(k, RadixTerms(k, n)) == n
    decreases n
  {
    if n < k {
      EvalCons(k, Term(n, 0), []);
    } else {
      DivShrinks(n, k);
      RadixTermsEval(k, n / k);
      ShiftInDigit(k, n, RadixTerms(k, n / k));
    }
  }

  /** Appending the units digit of `n` to the raised digits of `n / k`
      gives back `n`. */
  lemma ShiftInDigit(k: nat, n: nat, hi: seq<Term>)
    requires k >= 2 && Eval(k, hi) == n / k
    ensures Eval(k, Raise(hi) + [Term(n % k, 0)]) == n
  {
    EvalRaise(k, hi);
    EvalAppend(k, Raise(hi), [Term(n % k, 0)]);
    EvalCons(k, Term(n % k, 0), []);
    DivMod(n, k);
  }

  lemma {:induction false} SpellAppend(xs: seq<Term>, ys: seq<Term>)
    requires Spellable(xs) && Spellable(ys)
    ensures Spell(xs + ys) == Spell(xs) + Spell(ys)
  {
    assert Spellable(xs + ys);
  }

  /** Repeated division spells exactly the full digit list. */
  lemma {:induction false} RadixSpelled(k: nat, n: nat)
    requires 2 <= k <= 36
    ensures Radix(k, n) == Spell(RadixTerms(k, n))
    decreases n
  {
    if n >= k {
      RadixSpelled(k, n / k);
      SpellStep(k, n, RadixTerms(k, n / k));
    }
  }

  lemma SpellStep(k: nat, n: nat, hi: seq<Term>)
    requires 2 <= k <= 36 && k <= n && Spellable(hi)
    requires Spell(hi) == Radix(k, n / k)
    ensures Spellable(Raise(hi) + [Term(n % k, 0)])
    ensures Spell(Raise(hi) + [Term(n % k, 0)]) == Radix(k, n)
  {
    DivMod(n, k);
    SpellRaise(hi);
    SpellAppend(Raise(hi), [Term(n % k, 0)]);
  }

  lemma SpellRaise(ts: seq<Term>)
    requires Spellable(ts)
    ensures Spellable(Raise(ts)) && Spell(Raise(ts)) == Spell(ts)
  {
    assert Spellable(Raise(ts));
    var a, b := Spell(Raise(ts)), Spell(ts);
    forall i | 0 <= i < |a| ensures a[i] == b[i] {
    }
  }

  lemma {:induction false} RenderNone(c: nat)
    ensures Render([], c) == Zeros(c)
    decreases c
  {
    if c > 0 {
      RenderNone(c - 1);
    }
  }

  /** A digit list from power `e` renders as its digits followed by '0' for
      each missing lower power. */
  lemma {:induction false} RenderDigitList(k: nat, ts: seq<Term>, e: nat)
    requires k <= 36 && DigitList(k, ts, e)
    ensures Spellable(ts)
    ensures Render(ts, e + 1) == Spell(ts) + Zeros(e + 1 - |ts|)
    decreases e
  {
    if |ts| == 1 {
      RenderLast(k, ts, e);
    } else {
      DigitListTail(k, ts, e);
      RenderDigitList(k, ts[1..], e - 1);
      RenderStep(k, ts, e);
    }
  }

  lemma RenderLast(k: nat, ts: seq<Term>, e: nat)
    requires k <= 36 && DigitList(k, ts, e) && |ts| == 1
    ensures Spellable(ts)
    ensures Render(ts, e + 1) == Spell(ts) + Zeros(e)
  {
    var head := [DigitChar(ts[0].multiplier)];
    RenderHead(k, ts, e);
    RenderNone(e);
    assert ts[1..] == [];
    assert Spell(ts) == head;
  }

  lemma RenderStep(k: nat, ts: seq<Term>, e: nat)
    requires k <= 36 && DigitList(k, ts, e) && |ts| >= 2 && e >= 1
    requires Spellable(ts[1..])
    requires Render(ts[1..], e - 1 + 1) == Spell(ts[1..]) + Zeros(e - 1 + 1 - |ts[1..]|)
    ensures Spellable(ts)
    ensures Render(ts, e + 1) == Spell(ts) + Zeros(e + 1 - |ts|)
  {
    var rest := ts[1..];
    var head := [DigitChar(ts[0].multiplier)];
    RenderHead(k, ts, e);
    AppendAssoc(head, Spell(rest), Zeros(e - |rest|));
  }

  lemma AppendAssoc(a: string, b: string, c: string)
    ensures a + (b + c) == (a + b) + c
  {
  }

  /** The leading term of a digit list renders first. */
  lemma RenderHead(k: nat, ts: seq<Term>, e: nat)
    requires k <= 36 && DigitList(k, ts, e)
    ensures Spellable(ts)
    ensures Render(ts, e + 1) == [DigitChar(ts[0].multiplier)] + Render(ts[1..], e)
    ensures Spell(ts) == [DigitChar(ts[0].multiplier)] + Spell(ts[1..])
  {
  }

  /** Dropping the leading term of a digit list of two or more terms leaves
      a digit list from the next power down. */
  lemma DigitListTail(k: nat, ts: seq<Term>, e: nat)
    requires DigitList(k, ts, e) && |ts| >= 2
    ensures e >= 1 && DigitList(k, ts[1..], e - 1)
  {
    var rest := ts[1..];
    forall i | 0 <= i < |rest|
      ensures rest[i].power == e - 1 - i && rest[i].multiplier < k
    {
      assert rest[i] == ts[i + 1];
    }
  }

  /** Trimming a full digit list from power `|full| - 1` leaves a digit list
      from the same power, with the same leading term and the same value. */
  lemma TrimDigitList(k: nat, full: seq<Term>)
    requires |full| >= 1
    requires forall i :: 0 <= i < |full| ==> full[i].power == |full| - 1 - i && full[i].multiplier < k
    ensures DigitList(k, Trim(full), |full| - 1)
    ensures Trim(full)[0] == full[0]
    ensures Eval(k, Trim(full)) == Eval(k, full)
  {
    var ts := Trim(full);
    var tail := full[|ts|..];
    forall i | 0 <= i < |ts|
      ensures ts[i].power == |full| - 1 - i && ts[i].multiplier < k
    {
      assert ts[i] == full[i];
    }
    TrimSplit(full);
    EvalAppend(k, ts, tail);
    EvalZeros(k, tail);
  }

  /** The decomposition `from(n)` builds is the trimmed full digit list. */
  lemma FromNumberIsTrim(k: nat, n: nat)
    requires k >= 2
    ensures FromNumber(k, n).exponents == Trim(RadixTerms(k, n))
    ensures Log(k, n) == |RadixTerms(k, n)| - 1
  {
    if n == 0 {
      FromZero(k);
    } else {
      var full := RadixTerms(k, n);
      TrimDigitList(k, full);
      RadixTermsEval(k, n);
      FromNumberCanonical(k, Trim(full));
    }
  }

  /** Zero is the single term `0 * k^0`, both ways. */
  lemma FromZero(k: nat)
    requires k >= 2
    ensures FromNumber(k, 0).exponents == Trim(RadixTerms(k, 0)) == [Term(0, 0)]
    ensures Log(k, 0) == 0
  {
    assert RadixTerms(k, 0) == [Term(0, 0)];
    DigitsUnique(k, [Term(0, 0)], 0);
  }

  lemma {:induction false} SpellZeros(ts: seq<Term>)
    requires forall i :: 0 <= i < |ts| ==> ts[i].multiplier == 0
    ensures Spellable(ts) && Spell(ts) == Zeros(|ts|)
    decreases |ts|
  {
    if ts != [] {
      SpellZeros(ts[1..]);
    }
  }

  /** A base whose terms form a digit list from power `e` displays as the
      symbols of its multipliers followed by a '0' for each missing lower
      power. */
  lemma ToStringDigitList(b: BaseK, e: nat)
    requires 2 <= b.base <= 36 && DigitList(b.base, b.exponents, e)
    ensures Spellable(b.exponents)
    ensures ToString(b) == Spell(b.exponents) + Zeros(e + 1 - |b.exponents|)
  {
    RenderDigitList(b.base, b.exponents, e);
  }

  /** A trimmed list followed by what was trimmed off is the list. */
  lemma TrimSplit(ts: seq<Term>)
    requires ts != []
    ensures ts == Trim(ts) + ts[|Trim(ts)|..]
  {
  }

  /** `to_string` of `from(n)` spells the trimmed full digit list and pads
      it with '0' for each trimmed place. */
  lemma DisplayOfTrim(k: nat, n: nat)
    requires 2 <= k <= 36
    ensures var full := RadixTerms(k, n); var ts := Trim(full);
      Spellable(ts) && ToString(FromNumber(k, n)) == Spell(ts) + Zeros(|full| - |ts|)
  {
    var full := RadixTerms(k, n);
    ToStringDigitList(FromNumber(k, n), Log(k, n));
    FromNumberIsTrim(k, n);
  }

  /** Repeated division spells the trimmed digit list, then a '0' for each
      trimmed place. */
  lemma RadixOfTrim(k: nat, n: nat)
    requires 2 <= k <= 36
    ensures var full := RadixTerms(k, n); var ts := Trim(full);
      Spellable(ts) && Radix(k, n) == Spell(ts) + Zeros(|full| - |ts|)
  {
    var full := RadixTerms(k, n);
    var ts := Trim(full);
    var tail := full[|ts|..];
    TrimSplit(full);
    SpellZeros(tail);
    SpellAppend(ts, tail);
    RadixSpelled(k, n);
  }

  /** `to_string` of `from(n)` is the standard positional base-`k` string of
      `n`, for every `n` and every base from 2 to 36. */
  lemma DisplayMatchesRadix(k: nat, n: nat)
    requires 2 <= k <= 36
    ensures ToString(FromNumber(k, n)) == Radix(k, n)
  {
    DisplayOfTrim(k, n);
    RadixOfTrim(k, n);
  }

  // ---------------------------------------------------------------------
  // the cases of src/tests.rs

  /** A digit list with a nonzero leading digit is, field by field, what
      `from` returns for its value. */
  lemma Decomposes(k: nat, ts: seq<Term>, n: nat)
    requires k >= 2 && ts != [] && DigitList(k, ts, ts[0].power) && ts[0].multiplier >= 1
    requires Eval(k, ts) == n
    ensures FromNumber(k, n) == BaseK(k, n, ts, AllPowersBelow(k, ts))
  {
    FromNumberCanonical(k, ts);
  }

  /** `check_octal`, 18 in base 8: 22 in octal. */
  lemma Octal18()
    ensures FromNumber(8, 18) == BaseK(8, 18, [Term(2, 1), Term(2, 0)], true)
  {
    Decomposes(8, [Term(2, 1), Term(2, 0)], 18);
  }

  /** `check_octal`, 69 in base 8: 105 in octal, the interior zero digit
      kept. */
  lemma Octal69()
    ensures FromNumber(8, 69) == BaseK(8, 69, [Term(1, 2), Term(0, 1), Term(5, 0)], true)
  {
    Decomposes(8, [Term(1, 2), Term(0, 1), Term(5, 0)], 69);
  }

  /** `check_octal`, 10 in base 8: 12 in octal. */
  lemma Octal10()
    ensures FromNumber(8, 10) == BaseK(8, 10, [Term(1, 1), Term(2, 0)], true)
  {
    Decomposes(8, [Term(1, 1), Term(2, 0)], 10);
  }

  /** `check_octal`, 8 in base 8: a single term, the trailing zero digit
      not emitted. */
  lemma Octal8()
    ensures FromNumber(8, 8) == BaseK(8, 8, [Term(1, 1)], true)
  {
    Decomposes(8, [Term(1, 1)], 8);
  }

  /** `check_octal`, 64 in base 8, converted with `into`: a single term. */
  lemma Octal64()
    ensures FromNumber(8, 64) == BaseK(8, 64, [Term(1, 2)], true)
  {
    Decomposes(8, [Term(1, 2)], 64);
  }

  /** `check_base3`: 11 is 102 in base 3, reduced, and converts back to 11. */
  lemma Base3Eleven()
    ensures FromNumber(3, 11) == BaseK(3, 11, [Term(1, 2), Term(0, 1), Term(2, 0)], true)
    ensures Into(FromNumber(3, 11)) == 11
  {
    Decomposes(3, [Term(1, 2), Term(0, 1), Term(2, 0)], 11);
  }

  /** `check_base2`: 11 is 1011 in base 2, not reduced because of the power
      3, and converts back to 11. */
  lemma Base2Eleven()
    ensures FromNumber(2, 11) == BaseK(2, 11, [Term(1, 3), Term(0, 2), Term(1, 1), Term(1, 0)], false)
    ensures Into(FromNumber(2, 11)) == 11
  {
    var ts := [Term(1, 3), Term(0, 2), Term(1, 1), Term(1, 0)];
    Decomposes(2, ts, 11);
    assert ts[0].power >= 2;
  }

  /** `check_compute`: 11 in bases 2, 3 and 4 computes to the same value,
      the stored number. */
  lemma ComputeAcrossBases()
    ensures Compute(FromNumber(2, 11)) == Compute(FromNumber(3, 11))
    ensures Compute(FromNumber(2, 11)) == Compute(FromNumber(4, 11))
    ensures Compute(FromNumber(2, 11)) == FromNumber(4, 11).number
  {
    FromNumberRoundTrip(2, 11);
    FromNumberRoundTrip(3, 11);
    FromNumberRoundTrip(4, 11);
  }

  /** `is_power_of_test`: 3 lies between `2^1` and `2^2`, 11 between `3^2`
      and `3^3`, and 2 is below the base 3. */
  lemma IsPowerOfCases()
    ensures IsPowerOf(3, 2) == Some((false, 1))
    ensures IsPowerOf(11, 3) == Some((false, 2))
    ensures IsPowerOf(2, 3) == None
  {
    LogUnique(2, 3, 1);
    LogUnique(3, 11, 2);
  }

  /** `check_reduced`: 100 and 4 in base 2 are not reduced, 3 is. */
  lemma ReducedCases()
    ensures !FromNumber(2, 100).reduced
    ensures !FromNumber(2, 4).reduced
    ensures FromNumber(2, 3).reduced
  {
    ReducedIff(2, 100);
    ReducedIff(2, 4);
    ReducedIff(2, 3);
  }
}
