/** `GoodsteinSeq<K>` of src/goostein_sequence.rs: a base-K number whose
    terms are classified one level deep. A power of at most `K` is kept as
    it is; a larger power is expanded into its own base-K decomposition,
    which is itself left unclassified. */
module Goodstein {
  import opened Arith
  import opened BaseDigits

  /** `GPow<K>`: a power that needs no expansion at base `K`, or the base-K
      decomposition of a power above `K`. */
  datatype GPow = Reduced(power: nat) | NonReduced(expansion: BaseK)

  /** `GoodsteinSeq<K>`: the number it was built from, its classified
      `(Multiplier, GPow)` terms and the number's `reduced` flag. */
  datatype GoodsteinSeq = GoodsteinSeq(baseNumber: BaseK, gExponents: seq<(nat, GPow)>, reduced: bool)

  /** The conditional inside the `map` of `From<Base<K>>`: a power `p > k`
      is expanded with `Base::<K>::from(p)`, any other power is kept. The
      expansion stands for the same value and only holds powers below `p`. */
  function Classify(k: nat, p: nat): (g: GPow)
    requires k >= 2
    ensures g.Reduced? <==> p <= k
    ensures g.Reduced? ==> g.power == p
    ensures g.NonReduced? ==> g.expansion.base == k && g.expansion.number == p
    ensures g.NonReduced? ==> Compute(g.expansion) == p
    ensures g.NonReduced? ==> forall i :: 0 <= i < |g.expansion.exponents| ==> g.expansion.exponents[i].power < p
  {
    if p > k then
      FromNumberRoundTrip(k, p);
      PowersBelowNumber(k, p);
      NonReduced(FromNumber(k, p))
    else
      Reduced(p)
  }

  /** The `map`/`collect` over the terms: multipliers copied, powers
      classified, order kept. */
  function ClassifyTerms(k: nat, ts: seq<Term>): (gs: seq<(nat, GPow)>)
    requires k >= 2
    ensures |gs| == |ts|
    ensures forall i :: 0 <= i < |ts| ==> gs[i].0 == ts[i].multiplier
    ensures forall i :: 0 <= i < |ts| ==> gs[i].1 == Classify(k, ts[i].power)
  {
    if ts == [] then [] else [(ts[0].multiplier, Classify(k, ts[0].power))] + ClassifyTerms(k, ts[1..])
  }

  /** `From<Base<K>> for GoodsteinSeq<K>`. */
  function FromBase(b: BaseK): (g: GoodsteinSeq)
    requires b.base >= 2
    ensures g.baseNumber == b && g.reduced == b.reduced
    ensures |g.gExponents| == |b.exponents|
    ensures forall i :: 0 <= i < |b.exponents| ==>
      g.gExponents[i].0 == b.exponents[i].multiplier
      && (g.gExponents[i].1.Reduced? <==> b.exponents[i].power <= b.base)
  {
    GoodsteinSeq(b, ClassifyTerms(b.base, b.exponents), b.reduced)
  }

  /** `get_num`: the number the sequence was built from. */
  function GetNum(g: GoodsteinSeq): nat
  {
    g.baseNumber.number
  }

  /** `get_compute`: `compute` of the number the sequence was built from. */
  function GetCompute(g: GoodsteinSeq): nat
  {
    Compute(g.baseNumber)
  }

  // ---------------------------------------------------------------------
  // value of the classified terms

  /** The exponent a classified power stands for. */
  function PowValue(g: GPow): nat
  {
    match g
    case Reduced(p) => p
    case NonReduced(b) => Compute(b)
  }

  /** The value of the classified terms at base `k`: the sum of
      `multiplier * k^exponent`, an expanded power counting as the value of
      its expansion. */
  function TermsValue(k: nat, gs: seq<(nat, GPow)>): nat
  {
    if gs == [] then 0 else gs[0].0 * Pow(k, PowValue(gs[0].1)) + TermsValue(k, gs[1..])
  }

  /** Classifying the terms keeps their value: every expansion computes
      back to the power it replaced. */
  lemma {:induction false} ClassifyTermsValue(k: nat, ts: seq<Term>)
    requires k >= 2
    ensures TermsValue(k, ClassifyTerms(k, ts)) == Eval(k, ts)
    decreases |ts|
  {
    if ts != [] {
      var gs := ClassifyTerms(k, ts);
      assert gs[1..] == ClassifyTerms(k, ts[1..]);
      assert PowValue(gs[0].1) == ts[0].power;
      ClassifyTermsValue(k, ts[1..]);
    }
  }

  /** Converting any base-K number keeps its value, whether read through
      `get_compute` or through the classified terms. */
  lemma FromBaseValue(b: BaseK)
    requires b.base >= 2
    ensures GetCompute(FromBase(b)) == Compute(b)
    ensures TermsValue(b.base, FromBase(b).gExponents) == Compute(b)
  {
    ClassifyTermsValue(b.base, b.exponents);
  }

  /** For a sequence built from `Base::<K>::from(n)`, `get_num` and
      `get_compute` both give back `n`. */
  lemma FromNumberAccessors(k: nat, n: nat)
    requires k >= 2
    ensures GetNum(FromBase(FromNumber(k, n))) == n
    ensures GetCompute(FromBase(FromNumber(k, n))) == n
  {
    FromNumberRoundTrip(k, n);
  }

  /** When no power reaches `K` no term is expanded; in particular a
      reduced decomposition yields only `Reduced` terms. */
  lemma BelowBaseAllReduced(b: BaseK)
    requires b.base >= 2 && AllPowersBelow(b.base, b.exponents)
    ensures forall i :: 0 <= i < |b.exponents| ==> FromBase(b).gExponents[i].1 == Reduced(b.exponents[i].power)
  {
  }

  lemma ReducedAllReduced(k: nat, n: nat)
    requires k >= 2 && FromNumber(k, n).reduced
    ensures var g := FromBase(FromNumber(k, n));
      forall i :: 0 <= i < |g.gExponents| ==> g.gExponents[i].1.Reduced?
  {
    BelowBaseAllReduced(FromNumber(k, n));
  }

  // ---------------------------------------------------------------------
  // cases

  /** An exponent equal to `K` is kept: 4 in base 2 is `2^2`, not reduced
      as a `Base`, yet its one term is `Reduced(2)`. */
  lemma PowerEqualToBaseKept()
    ensures !FromNumber(2, 4).reduced
    ensures FromBase(FromNumber(2, 4)).gExponents == [(1, Reduced(2))]
  {
    Decomposes(2, [Term(1, 2)], 4);
  }

  /** `generate_goodstein_seq`: for 100 in base 2, `compute` of the number
      equals `get_compute` of the sequence built from it. */
  lemma Generate100()
    ensures Compute(FromNumber(2, 100)) == GetCompute(FromBase(FromNumber(2, 100)))
    ensures GetCompute(FromBase(FromNumber(2, 100))) == 100
  {
    FromNumberAccessors(2, 100);
  }

  /** 8 in base 2 is `2^3`; the power 3 is above 2 and is expanded into
      the plain decomposition of 3, `2^1 + 2^0`, whose own powers are not
      classified again. */
  lemma EightExpanded()
    ensures FromBase(FromNumber(2, 8)).gExponents
      == [(1, NonReduced(BaseK(2, 3, [Term(1, 1), Term(1, 0)], true)))]
  {
    Decomposes(2, [Term(1, 3)], 8);
    Decomposes(2, [Term(1, 1), Term(1, 0)], 3);
  }
}
