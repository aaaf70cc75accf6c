/** Shared failure datatypes and machine-width types. */
module Common {
  datatype Option<+T> = None | Some(value: T)

  datatype Result<+T, +E> = Ok(value: T) | Err(error: E)

  newtype Byte = b: int | 0 <= b < 0x100

  type Bytes = seq<Byte>

  const I32_MAX: int := 0x7FFF_FFFF
  const I32_MIN: int := -0x8000_0000
  const I64_MAX: int := 0x7FFF_FFFF_FFFF_FFFF
  const I64_MIN: int := -0x8000_0000_0000_0000
  const U32_MAX: int := 0xFFFF_FFFF
  const U64_MAX: int := 0xFFFF_FFFF_FFFF_FFFF
  const I128_MAX: int := 0x7FFF_FFFF_FFFF_FFFF_FFFF_FFFF_FFFF_FFFF
  const I128_MIN: int := -0x8000_0000_0000_0000_0000_0000_0000_0000
  const USIZE_MAX: int := U64_MAX

  function Min(a: int, b: int): int { if a <= b then a else b }

  function Max(a: int, b: int): int { if a <= b then b else a }

  function SaturatingSub(a: nat, b: nat): nat { if a < b then 0 else a - b }

  function SaturatingAdd(a: nat, b: nat): nat { if a + b > USIZE_MAX then USIZE_MAX else a + b }

  /** Flattens a sequence of pieces in order. */
  function Concat<T>(pieces: seq<seq<T>>): seq<T> {
    if pieces == [] then [] else pieces[0] + Concat(pieces[1..])
  }

  lemma {:induction false} ConcatAppend<T>(left: seq<seq<T>>, right: seq<seq<T>>)
    ensures Concat(left + right) == Concat(left) + Concat(right)
  {
    if left == [] {
      assert left + right == right;
    } else {
      assert (left + right)[1..] == left[1..] + right;
      ConcatAppend(left[1..], right);
    }
  }

  function LowerChar(c: char): char { if 'A' <= c <= 'Z' then c + 32 as char else c }

  predicate IsUpper(c: char) { 'A' <= c <= 'Z' }

  /** The same character, or the two cases of an ASCII letter. */
  predicate SameLetter(a: char, b: char) {
    a == b || (IsUpper(a) && b as int == a as int + 32) || (IsUpper(b) && a as int == b as int + 32)
  }

  lemma LowerCharExact(a: char, b: char)
    ensures LowerChar(a) == LowerChar(b) <==> SameLetter(a, b)
  {
  }

  ghost function Sum(q: seq<nat>): nat {
    if q == [] then 0 else q[0] + Sum(q[1..])
  }

  lemma {:induction false} SumAppend(p: seq<nat>, q: seq<nat>)
    ensures Sum(p + q) == Sum(p) + Sum(q)
  {
    if p == [] {
      assert p + q == q;
    } else {
      assert (p + q)[1..] == p[1..] + q;
      SumAppend(p[1..], q);
    }
  }

  ghost function SumTo(f: nat -> nat, n: nat): nat {
    if n == 0 then 0 else SumTo(f, n - 1) + f(n - 1)
  }

  lemma {:induction false} SumDrops(f: nat -> nat, g: nat -> nat, t: nat, n: nat)
    requires forall u: nat :: u < n ==> g(u) <= f(u)
    ensures SumTo(g, n) <= SumTo(f, n)
    ensures t < n && g(t) < f(t) ==> SumTo(g, n) < SumTo(f, n)
  {
    if n > 0 { SumDrops(f, g, t, n - 1); }
  }

  /** If every other summand grows by at most `k`, the sum grows by at most that and the change at `t`. */
  lemma {:induction false} SumChanges(f: nat -> nat, g: nat -> nat, t: nat, k: nat, n: nat)
    requires forall u: nat :: u < n && u != t ==> g(u) <= f(u) + k
    ensures t < n ==> SumTo(g, n) + f(t) + k <= SumTo(f, n) + g(t) + n * k
    ensures t >= n ==> SumTo(g, n) <= SumTo(f, n) + n * k
  {
    if n > 0 {
      SumChanges(f, g, t, k, n - 1);
      assert n * k == (n - 1) * k + k;
    }
  }

  lemma {:induction false} SumBound(f: nat -> nat, bound: nat, n: nat)
    requires forall u: nat :: u < n ==> f(u) <= bound
    ensures SumTo(f, n) <= bound * n
  {
    if n > 0 {
      SumBound(f, bound, n - 1);
      assert bound * n == bound * (n - 1) + bound;
    }
  }
}
