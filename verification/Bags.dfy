/** Multiset sums over sequences. */
module Bags {
  ghost function Total<A, B>(f: A -> multiset<B>, s: seq<A>): multiset<B> {
    if s == [] then multiset{} else f(s[0]) + Total(f, s[1..])
  }

  lemma {:induction false} Associative<B>(x: multiset<B>, y: multiset<B>, z: multiset<B>)
    ensures (x + y) + z == x + (y + z)
  {
  }

  lemma {:induction false} Cancel<B>(x: B, p: multiset<B>, q: multiset<B>)
    requires multiset{x} + p == multiset{x} + q
    ensures p == q
  {
    forall y ensures p[y] == q[y] {
      assert (multiset{x} + p)[y] == (multiset{x} + q)[y];
    }
  }

  lemma {:induction false} RemoveAt<A>(s: seq<A>, j: nat)
    requires j < |s|
    ensures multiset(s) == multiset{s[j]} + multiset(s[..j] + s[j + 1..])
  {
    assert s == s[..j] + ([s[j]] + s[j + 1..]);
  }

  lemma {:induction false} TotalJoin<A, B>(f: A -> multiset<B>, a: seq<A>, b: seq<A>)
    ensures Total(f, a + b) == Total(f, a) + Total(f, b)
  {
    if a == [] {
      assert a + b == b;
    } else {
      TotalJoin(f, a[1..], b);
      assert (a + b)[1..] == a[1..] + b;
      Associative(f(a[0]), Total(f, a[1..]), Total(f, b));
    }
  }

  lemma {:induction false} TotalOne<A, B>(f: A -> multiset<B>, x: A)
    ensures Total(f, [x]) == f(x)
  {
    assert [x][1..] == [];
  }

  lemma {:induction false} TotalPull<A, B>(f: A -> multiset<B>, s: seq<A>, j: nat)
    requires j < |s|
    ensures Total(f, s) == f(s[j]) + Total(f, s[..j] + s[j + 1..])
  {
    assert s == s[..j] + ([s[j]] + s[j + 1..]);
    TotalJoin(f, s[..j], [s[j]] + s[j + 1..]);
    TotalJoin(f, [s[j]], s[j + 1..]);
    TotalOne(f, s[j]);
    TotalJoin(f, s[..j], s[j + 1..]);
  }

  /** The sum depends on the summands as a multiset only. */
  lemma {:induction false} TotalPermutes<A, B>(f: A -> multiset<B>, a: seq<A>, b: seq<A>)
    requires multiset(a) == multiset(b)
    ensures Total(f, a) == Total(f, b)
    decreases |a|
  {
    if a == [] {
      assert |multiset(b)| == 0;
    } else {
      assert a[0] in multiset(b);
      var j :| 0 <= j < |b| && b[j] == a[0];
      RemoveAt(a, 0);
      RemoveAt(b, j);
      assert a[..0] + a[1..] == a[1..];
      Cancel(a[0], multiset(a[1..]), multiset(b[..j] + b[j + 1..]));
      TotalPermutes(f, a[1..], b[..j] + b[j + 1..]);
      TotalPull(f, b, j);
    }
  }

  lemma {:induction false} Regroup<A>(o: seq<A>, x: A, s: seq<A>, t: seq<A>)
    ensures multiset(o + [x] + (s + t)) == multiset(o + s) + (multiset{x} + multiset(t))
  {
  }
}
