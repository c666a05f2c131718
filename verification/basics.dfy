/** What several modules share: options, and facts about sequences and division. */
module Basics {

  datatype Option<+T> = None | Some(value: T)

  predicate EndsWith<T(==)>(s: seq<T>, ending: seq<T>) {
    |s| >= |ending| && s[|s| - |ending|..] == ending
  }

  lemma Assoc<T>(a: seq<T>, b: seq<T>, c: seq<T>)
    ensures (a + b) + c == a + (b + c)
  {
  }

  /** The codes of the characters of a text. */
  function Codes(text: string): (codes: seq<int>)
    ensures |codes| == |text| && forall i :: 0 <= i < |text| ==> codes[i] == text[i] as int
  {
    seq(|text|, i requires 0 <= i < |text| => text[i] as int)
  }

  /** `memcpy`: puts data into an array from a position on. */
  method CopyInto<T>(to: array<T>, at: nat, data: seq<T>)
    requires at + |data| <= to.Length
    modifies to
    ensures to[..at] == old(to[..at]) && to[at..at + |data|] == data && to[at + |data|..] == old(to[at + |data|..])
  {
    for i := 0 to |data|
      invariant to[..at] == old(to[..at]) && to[at..at + i] == data[..i] && to[at + i..] == old(to[at + i..])
    {
      assert to[at + i..][1..] == to[at + i + 1..] && data[..i + 1] == data[..i] + [data[i]];
      to[at + i] := data[i];
    }
  }

  lemma Distribute(d: nat, x: nat, y: nat)
    ensures d * (x + y) == d * x + d * y >= d * x
  {
  }

  lemma Gap(d: nat, a: nat, b: nat)
    requires a < b
    ensures d * b >= d * a + d
  {
    Distribute(d, a + 1, b - (a + 1));
    Distribute(d, a, 1);
  }

  lemma DivideUnique(n: nat, d: nat, q: nat, r: nat)
    requires d > 0 && n == d * q + r && r < d
    ensures n / d == q && n % d == r
  {
    var q', r' := n / d, n % d;
    assert n == d * q' + r';
    if q < q' {
      Gap(d, q, q');
    } else if q' < q {
      Gap(d, q', q);
    }
  }

  /** The six bits of n above d, which has `high` above them and `low` below. */
  lemma SextetAt(n: nat, d: nat, high: nat, mid: nat, low: nat)
    requires d > 0 && mid < 64 && low < d && n == d * (64 * high + mid) + low
    ensures n / d % 64 == mid
  {
    DivideUnique(n, d, 64 * high + mid, low);
    DivideUnique(64 * high + mid, 64, high, mid);
  }
}
