/** Sector alignment: `next_multiple`, `nm_to_skip` and `skip_to_multiple`. */
module Alignment {
  import opened Input

  /** The sector size every section and payload is aligned to. */
  const Sector: nat := 2048

  /** One past the largest i32: the stream position is cast to i32. */
  const I32Limit: nat := 0x8000_0000

  predicate IsMultipleOf(m: int, t: int)
    requires t > 0
  {
    m % t == 0
  }

  /** `next_multiple`: the least multiple of target that is at least n. For
      the non-negative operands used here Rust's truncating `%` and `/`
      agree with Dafny's. */
  function NextMultiple(n: nat, target: nat): (r: nat)
    requires target > 0
    ensures IsMultipleOf(r, target)
    ensures n <= r < n + target
    ensures IsMultipleOf(n, target) ==> r == n
    ensures forall m :: n <= m && IsMultipleOf(m, target) ==> r <= m
  {
    if n % target == 0 then n
    else
      var prev := n / target;
      MultipleFacts(n, target, prev);
      target * (prev + 1)
  }

  /** The facts about `target * (n / target + 1)` that NextMultiple promises
      when n is not itself a multiple. */
  lemma MultipleFacts(n: nat, target: nat, prev: nat)
    requires target > 0 && prev == n / target && n % target != 0
    ensures IsMultipleOf(target * (prev + 1), target)
    ensures n < target * (prev + 1) < n + target
    ensures forall m :: n <= m && IsMultipleOf(m, target) ==> target * (prev + 1) <= m
  {
    var r := target * (prev + 1);
    assert n == target * prev + n % target;
    assert r == target * prev + target;
    MulModZero(target, prev + 1);
    forall m | n <= m && IsMultipleOf(m, target)
      ensures r <= m
    {
      var k := m / target;
      assert m == target * k;
      if k <= prev {
        MulMonotone(target, k, prev);
        assert false;
      }
      MulMonotone(target, prev + 1, k);
    }
  }

  lemma MulModZero(t: nat, k: nat)
    requires t > 0
    ensures (t * k) % t == 0
  {
    var a := t * k;
    assert a == t * (a / t) + a % t;
    var d := k - a / t;
    assert t * d == a % t;
    if d < 0 || d > 0 {
      assert false;
    }
  }

  lemma MulMonotone(t: nat, a: nat, b: nat)
    requires a <= b
    ensures t * a <= t * b
  {
    assert t * b == t * a + t * (b - a);
  }

  /** `nm_to_skip`: the padding from current to the next multiple of target. */
  function NmToSkip(current: nat, target: nat): (r: nat)
    requires target > 0
    ensures r < target
    ensures IsMultipleOf(current + r, target)
    ensures r == 0 <==> IsMultipleOf(current, target)
  {
    NextMultiple(current, target) - current
  }

  /** `skip_to_multiple`: seeks forward to the next multiple of target and
      reports the distance skipped. The source casts the position to i32, so
      the position and the multiple it reaches must stay below 2^31. */
  function SkipToMultiple(s: Stream, target: nat): (r: Taken<nat>)
    requires 0 < target
    requires s.pos + target <= I32Limit
    ensures r.rest.data == s.data
    ensures r.rest.pos == s.pos + r.value < I32Limit
    ensures r.value < target
    ensures IsMultipleOf(r.rest.pos, target)
    ensures r.rest.pos == NextMultiple(s.pos, target)
  {
    var toSkip := NmToSkip(s.pos, target);
    Taken(toSkip, Seek(s, toSkip))
  }
}
