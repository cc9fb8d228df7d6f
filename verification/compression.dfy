/** The greedy, level-by-level geohash set compressor: groups of at least 32
    distinct same-length codes sharing a prefix are replaced by that prefix,
    from the longest code length down to a minimum length. The compressor
    iterates over hash maps, so its output order is unspecified; the output
    is modelled as a multiset. */
module Compression {
  import opened Geohash

  /** The larger of two integers. */
  function MaxInt(a: int, b: int): (r: int)
    ensures r >= a && r >= b
    ensures r == a || r == b
  {
    if a > b then a else b
  }

  /** The length of the longest code, 0 for no codes. */
  function MaxLen(codes: seq<string>): (m: nat)
    ensures forall c :: c in codes ==> |c| <= m
    ensures |codes| > 0 ==> exists c :: c in codes && |c| == m
    ensures |codes| == 0 ==> m == 0
  {
    if |codes| == 0 then 0
    else
      var rest := MaxLen(codes[..|codes| - 1]);
      assert forall c :: c in codes ==> c in codes[..|codes| - 1] || c == codes[|codes| - 1];
      MaxInt(|codes[|codes| - 1]|, rest)
  }

  /** The codes of `w` that are one symbol longer than `i` and start with `p`:
      the candidates for merging into `p` at target length `i`. */
  function Group(w: set<string>, i: nat, p: string): (g: set<string>)
    ensures g <= w
  {
    set c | c in w && |c| == i + 1 && c[..i] == p
  }

  /** The working set after one level, and the codes the level moved to the
      result. */
  datatype LevelResult = LevelResult(working: set<string>, emitted: set<string>)

  /** One pass of the level loop with target length `i`. Codes longer than
      `i + 1` go to the result. Codes of length `i + 1` are grouped by their
      length-`i` prefix: a group of at least 32 is replaced in the working set
      by its prefix, a smaller group goes to the result. Shorter codes stay. */
  function MergeLevel(w: set<string>, i: nat): (r: LevelResult)
    ensures r.emitted <= w
  {
    var kept := set c | c in w && |c| < i + 1;
    var longer := set c | c in w && |c| > i + 1;
    var small := set c | c in w && |c| == i + 1 && |Group(w, i, c[..i])| < 32;
    var merged := set c | c in w && |c| == i + 1 && |Group(w, i, c[..i])| >= 32 :: c[..i];
    LevelResult(kept + merged, longer + small)
  }

  /** A level never ends with more codes than it started with: the codes
      it keeps, emits and drops split the working set, and the prefixes it
      inserts are no more than the codes they replace. */
  lemma MergeLevelCard(w: set<string>, i: nat)
    ensures |MergeLevel(w, i).working| + |MergeLevel(w, i).emitted| <= |w|
  {
    hide Group, Levels, LevelThenRest;
    var r := MergeLevel(w, i);
    var kept := set c | c in w && |c| < i + 1;
    var longer := set c | c in w && |c| > i + 1;
    var small := set c | c in w && |c| == i + 1 && |Group(w, i, c[..i])| < 32;
    var big := set c | c in w && |c| == i + 1 && |Group(w, i, c[..i])| >= 32;
    var merged := PrefixImage(big, i);
    assert r.working == kept + merged;
    assert r.emitted == longer + small;
    assert w == kept + longer + small + big;
    FourPartCard(w, kept, longer, small, big);
    PrefixImageCard(big, i);
    UnionCard(kept, merged);
    UnionCard(longer, small);
  }

  /** A set split into four pairwise disjoint parts has as many members as
      the parts together. */
  lemma FourPartCard(w: set<string>, a: set<string>, b: set<string>, c: set<string>, d: set<string>)
    requires w == a + b + c + d
    requires forall x :: x in a ==> x !in b && x !in c && x !in d
    requires forall x :: x in b ==> x !in c && x !in d
    requires forall x :: x in c ==> x !in d
    ensures |w| == |a| + |b| + |c| + |d|
  {
    DisjointCard(a, b);
    DisjointCard(a + b, c);
    DisjointCard(a + b + c, d);
  }

  /** Two disjoint sets have as many members together as apart. */
  lemma DisjointCard(a: set<string>, b: set<string>)
    requires forall x :: x in a ==> x !in b
    ensures |a + b| == |a| + |b|
  {
    assert a * b == {};
  }

  /** A union has at most as many members as its parts together. */
  lemma UnionCard(a: set<string>, b: set<string>)
    ensures |a + b| <= |a| + |b|
  {
  }

  /** The level loop from target length `i` down to `min`, stopping as soon
      as fewer than 32 codes are left; what is left at the end joins the
      result. */
  function Levels(w: set<string>, i: int, min: int): (out: multiset<string>)
    requires min >= 1
    ensures |out| <= |w|
    decreases i - min + 1, 1
  {
    if i < min || |w| < 32 then multiset(w)
    else LevelThenRest(w, i, min)
  }

  /** One pass of the level loop at target length `i`, then the rest of the
      loop from `i - 1`. */
  function LevelThenRest(w: set<string>, i: int, min: int): (out: multiset<string>)
    requires min >= 1 && i >= min
    ensures |out| <= |w|
    decreases i - min + 1, 0
  {
    var r := MergeLevel(w, i);
    MergeLevelCard(w, i);
    multiset(r.emitted) + Levels(r.working, i - 1, min)
  }

  /** The compressor with minimum length `min`. With no codes, a
      non-positive `min`, or no code longer than `min`, the input comes back
      as it is (duplicates included); otherwise its codes, as a set, go
      through the level loop from the longest length minus one. */
  function Compress(codes: seq<string>, min: int): (out: multiset<string>)
    ensures |SetOf(codes)| < 32 ==> forall c :: c in out <==> c in codes
    ensures |out| <= |codes|
  {
    if |codes| == 0 || min <= 0 then multiset(codes)
    else
      var maxLen := MaxLen(codes);
      if maxLen <= min then multiset(codes)
      else
        SetOfCard(codes);
        Levels(SetOf(codes), maxLen - 1, min)
  }
}
