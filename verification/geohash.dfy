/** Geohash codes as strings, the base-32 alphabet, prefixes, and the expansion
    of a code into its 32 children one precision level deeper. */
module Geohash {

  /** The geohash base-32 alphabet in the fixed order the expansion uses:
      the ten digits, then the lower-case letters without a, i, l and o. */
  const Base32: string := "0123456789bcdefghjkmnpqrstuvwxyz"

  /** Every character of `c` is a base-32 symbol. Nothing in the compressor
      checks this; it is only used to relate the merge rule to sibling groups. */
  predicate IsBase32Code(c: string) {
    forall k :: 0 <= k < |c| ==> c[k] in Base32
  }

  /** `a` is a prefix of `b` (possibly `b` itself): the cell `a` contains `b`. */
  predicate IsPrefix(a: string, b: string) {
    |a| <= |b| && b[..|a|] == a
  }

  /** `a` is a strictly shorter prefix of `b`: `b` is a cell inside `a`. */
  predicate IsProperPrefix(a: string, b: string) {
    |a| < |b| && b[..|a|] == a
  }

  lemma PrefixTransitive(a: string, b: string, c: string)
    requires IsPrefix(a, b) && IsPrefix(b, c)
    ensures IsPrefix(a, c)
  {
    assert c[..|a|] == c[..|b|][..|a|];
  }

  /** The alphabet has 32 symbols and none of them repeats, so the 32 children
      of a code are pairwise different. */
  lemma Base32Distinct()
    ensures |Base32| == 32
    ensures forall a, b :: 0 <= a < b < |Base32| ==> Base32[a] != Base32[b]
  {
    assert Ascending(Base32);
    forall a, b | 0 <= a < b < |Base32| ensures Base32[a] != Base32[b] {
      AscendingStrict(Base32, a, b);
    }
  }

  /** Each symbol of `s` comes before the next one. */
  predicate Ascending(s: string) {
    forall k :: 0 <= k < |s| - 1 ==> s[k] < s[k + 1]
  }

  /** In an ascending string, an earlier symbol comes before every later one. */
  lemma {:induction false} AscendingStrict(s: string, a: nat, b: nat)
    requires Ascending(s) && a < b < |s|
    ensures s[a] < s[b]
    decreases b - a
  {
    if a + 1 < b {
      AscendingStrict(s, a + 1, b);
    }
  }

  /** The children of `h`, one per base-32 symbol, in alphabet order. */
  function NextPrecision(h: string): (r: seq<string>)
    ensures |r| == 32
  {
    Base32Distinct();
    seq(|Base32|, k requires 0 <= k < |Base32| => h + [Base32[k]])
  }

  /** The `k`-th child of `h` is one symbol longer, lies inside `h`, and ends
      with the `k`-th symbol of the alphabet. */
  lemma NextPrecisionChildren(h: string)
    ensures forall k :: 0 <= k < 32 ==>
              |NextPrecision(h)[k]| == |h| + 1 && IsProperPrefix(h, NextPrecision(h)[k])
              && NextPrecision(h)[k][|h|] == Base32[k]
  {
    Base32Distinct();
  }

  /** The 32 children of a code are pairwise different. */
  lemma NextPrecisionDistinct(h: string)
    ensures forall a, b :: 0 <= a < b < 32 ==> NextPrecision(h)[a] != NextPrecision(h)[b]
  {
    var r := NextPrecision(h);
    Base32Distinct();
    assert forall a, b :: 0 <= a < b < |r| ==> r[a][|h|] != r[b][|h|];
  }

  /** Every one-symbol base-32 extension of `h` is among its children: the
      expansion misses no child. */
  lemma NextPrecisionComplete(h: string, c: string)
    requires |c| == |h| + 1 && IsProperPrefix(h, c) && c[|h|] in Base32
    ensures c in NextPrecision(h)
  {
    var r := NextPrecision(h);
    var k :| 0 <= k < |Base32| && Base32[k] == c[|h|];
    assert c == r[k] by {
      assert c == c[..|h|] + [c[|h|]];
      assert r[k] == r[k][..|h|] + [r[k][|h|]];
    }
  }

  /** The distinct codes of a list. */
  function SetOf(codes: seq<string>): set<string> {
    set c | c in codes
  }

  /** All children of the codes in `parents`. */
  function ChildSet(parents: set<string>): set<string> {
    set t, k | t in parents && 0 <= k < |Base32| :: Child(t, k)
  }

  /** The child of `h` for the `k`-th symbol of the alphabet. */
  function Child(h: string, k: nat): string
    requires k < |Base32|
  {
    h + [Base32[k]]
  }

  /** Membership in `ChildSet` read off a single code: drop its last symbol
      and that must be a parent, and the dropped symbol must be base-32. */
  lemma ChildSetMember(parents: set<string>, c: string)
    ensures c in ChildSet(parents) <==>
              |c| > 0 && c[..|c| - 1] in parents && c[|c| - 1] in Base32
  {
    if |c| > 0 && c[..|c| - 1] in parents && c[|c| - 1] in Base32 {
      var k :| 0 <= k < |Base32| && Base32[k] == c[|c| - 1];
      assert c == Child(c[..|c| - 1], k);
    }
    if c in ChildSet(parents) {
      var t, k :| t in parents && 0 <= k < |Base32| && c == Child(t, k);
      assert c[..|c| - 1] == t;
    }
  }

  /** The expansion of one code, as a set, is exactly its child set, and it
      has 32 members. */
  lemma NextPrecisionSet(h: string)
    ensures SetOf(NextPrecision(h)) == ChildSet({h})
    ensures |ChildSet({h})| == 32
  {
    var r := NextPrecision(h);
    forall c | c in ChildSet({h}) ensures c in r {
      ChildSetMember({h}, c);
      NextPrecisionComplete(h, c);
    }
    forall c | c in r ensures c in ChildSet({h}) {
      var k :| 0 <= k < |r| && r[k] == c;
      ChildSetMember({h}, c);
      assert c[..|c| - 1] == h;
    }
    NextPrecisionDistinct(h);
    DistinctCard(r);
  }

  /** A sequence without repeated elements has as many distinct elements as
      entries. */
  lemma {:induction false} DistinctCard(s: seq<string>)
    requires forall a, b :: 0 <= a < b < |s| ==> s[a] != s[b]
    ensures |SetOf(s)| == |s|
  {
    if |s| > 0 {
      var t := s[1..];
      DistinctCard(t);
      assert SetOf(s) == SetOf(t) + {s[0]};
    }
  }

  /** The children of every code of `codes`, the children of `codes[0]` first
      (the test helper that builds complete sibling groups). */
  function Explode(codes: seq<string>): (r: seq<string>)
    ensures |r| == 32 * |codes|
  {
    if |codes| == 0 then [] else NextPrecision(codes[0]) + Explode(codes[1..])
  }

  /** Expanding a list of codes gives, as a set, exactly the children of
      its codes. */
  lemma {:induction false} ExplodeSet(codes: seq<string>)
    ensures SetOf(Explode(codes)) == ChildSet(SetOf(codes))
  {
    if |codes| > 0 {
      ExplodeSet(codes[1..]);
      NextPrecisionSet(codes[0]);
      ChildSetFacts(codes);
      SetOfConcat(NextPrecision(codes[0]), Explode(codes[1..]));
    }
  }

  /** The distinct codes of two lists put together. */
  lemma SetOfConcat(a: seq<string>, b: seq<string>)
    ensures SetOf(a + b) == SetOf(a) + SetOf(b)
  {
    assert forall c :: c in a + b <==> c in a || c in b;
  }

  /** The child set of a nonempty sequence splits at its head. */
  lemma ChildSetFacts(codes: seq<string>)
    requires |codes| > 0
    ensures ChildSet(SetOf(codes)) == ChildSet({codes[0]}) + ChildSet(SetOf(codes[1..]))
  {
    assert SetOf(codes) == {codes[0]} + SetOf(codes[1..]);
  }

  /** A list has at most as many distinct codes as entries. */
  lemma {:induction false} SetOfCard(codes: seq<string>)
    ensures |SetOf(codes)| <= |codes|
  {
    if |codes| > 0 {
      SetOfCard(codes[1..]);
      assert SetOf(codes) == SetOf(codes[1..]) + {codes[0]};
    }
  }

  /** The length-`n` prefixes of the strings of `d`. */
  function PrefixImage(d: set<string>, n: nat): set<string>
    requires forall x :: x in d ==> |x| >= n
  {
    set x | x in d :: x[..n]
  }

  /** Cutting every string of `d` to length `n` yields no more strings than
      `d` has. */
  lemma {:induction false} PrefixImageCard(d: set<string>, n: nat)
    requires forall x :: x in d ==> |x| >= n
    ensures |PrefixImage(d, n)| <= |d|
    decreases |d|
  {
    if d != {} {
      var y :| y in d;
      var d' := d - {y};
      PrefixImageCard(d', n);
      assert PrefixImage(d, n) == PrefixImage(d', n) + {y[..n]};
    }
  }
}
