/** What the compressor promises about its output: every input code is still
    covered, no code is made up, no code comes out twice, merged codes are
    never shorter than the minimum, and the ">= 32 distinct codes" merge test
    coincides with "all 32 base-32 children present" on well-formed codes. */
module CompressionProps {
  import opened Geohash
  import opened Compression

  /** Every code of `m` occurs exactly once. */
  predicate NoDuplicates(m: multiset<string>) {
    forall c :: c in m ==> m[c] == 1
  }

  /** Some code of `m` is a prefix of `c` (possibly `c` itself): the cell `c`
      lies inside a cell of `m`. */
  predicate Covered(m: multiset<string>, c: string) {
    exists o :: o in m && IsPrefix(o, c)
  }

  /** The input codes that lie strictly inside the cell `p`. */
  function Descendants(p: string, inputs: set<string>): set<string> {
    set x | x in inputs && IsProperPrefix(p, x)
  }

  /** A code the compressor may legitimately hold: an input code, or a code
      of at least the minimum length standing for at least 32 distinct input
      codes inside it. */
  predicate Justified(c: string, inputs: set<string>, min: int) {
    c in inputs || (|c| >= min && |Descendants(c, inputs)| >= 32)
  }

  // ---------------------------------------------------------------------
  // Set cardinality helpers

  lemma SubsetCard(a: set<string>, b: set<string>)
    requires a <= b
    ensures |a| <= |b|
  {
    assert b == a + (b - a);
  }

  /** A subset at least as large as its superset is the superset. */
  lemma SubsetFullCard(a: set<string>, b: set<string>)
    requires a <= b && |a| >= |b|
    ensures a == b
  {
    if a != b {
      assert exists x :: x in b && x !in a;
      var x :| x in b && x !in a;
      SubsetCard(a, b - {x});
    }
  }

  // ---------------------------------------------------------------------
  // One level

  /** What one level with target length `i` does with a code of its working
      set: a shorter code stays; a longer code is emitted; a code of length
      `i + 1` is emitted when fewer than 32 codes share its length-`i` prefix,
      and otherwise leaves the working set, its prefix taking its place. */
  lemma MergeLevelFate(w: set<string>, i: nat, c: string)
    requires c in w
    ensures |c| < i + 1 ==>
              c in MergeLevel(w, i).working && c !in MergeLevel(w, i).emitted
    ensures |c| > i + 1 ==>
              c in MergeLevel(w, i).emitted && c !in MergeLevel(w, i).working
    ensures |c| == i + 1 && |Group(w, i, c[..i])| >= 32 ==>
              c[..i] in MergeLevel(w, i).working
              && c !in MergeLevel(w, i).working && c !in MergeLevel(w, i).emitted
    ensures |c| == i + 1 && |Group(w, i, c[..i])| < 32 ==>
              c in MergeLevel(w, i).emitted && c !in MergeLevel(w, i).working
  {
  }

  /** Nothing else enters the result or the working set: an emitted code
      comes from the working set and is at least one symbol longer than the
      target, and a code of the next working set is a shorter code that
      stayed or the prefix of a group of at least 32. */
  lemma MergeLevelOrigin(w: set<string>, i: nat, c: string)
    ensures c in MergeLevel(w, i).emitted ==> c in w && |c| >= i + 1
    ensures c in MergeLevel(w, i).working ==>
              (c in w && |c| <= i) || (|c| == i && |Group(w, i, c)| >= 32)
  {
  }

  /** Starting the loop at the longest length minus one keeps every working
      code at most one symbol longer than the target, so the "longer than the
      merge length" branch finds nothing and every code a level emits has
      exactly the merge length. */
  lemma MergeLevelBounded(w: set<string>, i: nat)
    requires forall c :: c in w ==> |c| <= i + 1
    ensures forall c :: c in MergeLevel(w, i).working ==> |c| <= i
    ensures forall c :: c in MergeLevel(w, i).emitted ==> |c| == i + 1
  {
  }

  /** The loop never finds a working code longer than the merge length of
      the level it runs: the branch for such codes is idle at every level. */
  predicate LongerBranchIdle(w: set<string>, i: int, min: int)
    requires min >= 1
    decreases i - min + 1
  {
    i < min || |w| < 32
    || ((forall c :: c in w ==> |c| <= i + 1)
        && LongerBranchIdle(MergeLevel(w, i).working, i - 1, min))
  }

  /** Starting from a working set no longer than one symbol past the target,
      the branch for longer codes stays idle for the whole loop: each level
      leaves codes no longer than its target, the next level's bound. */
  lemma {:induction false} LevelsLongerBranchIdle(w: set<string>, i: int, min: int)
    requires min >= 1
    requires forall c :: c in w ==> |c| <= i + 1
    ensures LongerBranchIdle(w, i, min)
    decreases i - min + 1
  {
    hide MergeLevel, Group, Levels, LevelThenRest;
    if i >= min && |w| >= 32 {
      MergeLevelBounded(w, i);
      LevelsLongerBranchIdle(MergeLevel(w, i).working, i - 1, min);
    }
  }

  /** The members of a merge group, all justified, stand for at least as many
      distinct input codes inside their common prefix as there are members. */
  lemma GroupDescendants(w: set<string>, i: nat, p: string, inputs: set<string>, min: int)
    requires |p| == i
    requires forall c :: c in w ==> Justified(c, inputs, min)
    ensures |Group(w, i, p)| <= |Descendants(p, inputs)|
  {
    var d := Descendants(p, inputs);
    var img := PrefixImage(d, i + 1);
    PrefixImageCard(d, i + 1);
    forall g | g in Group(w, i, p) ensures g in img {
      if g in inputs {
        assert g[..i + 1] == g;
        assert g in d;
      } else {
        var x :| x in Descendants(g, inputs);
        assert x[..i + 1] == g;
        assert x[..i] == x[..i + 1][..i];
        assert x in d;
      }
    }
    SubsetCard(Group(w, i, p), img);
  }

  /** A level at or above the minimum keeps every working code justified:
      a merged prefix has at least the minimum length and stands for at least
      32 input codes. */
  lemma MergeLevelJustified(w: set<string>, i: nat, inputs: set<string>, min: int)
    requires i >= min
    requires forall c :: c in w ==> Justified(c, inputs, min)
    ensures forall c :: c in MergeLevel(w, i).working ==> Justified(c, inputs, min)
  {
    var r := MergeLevel(w, i);
    forall c | c in r.working ensures Justified(c, inputs, min) {
      if c !in w {
        GroupDescendants(w, i, c, inputs, min);
      }
    }
  }

  /** On base-32 codes, the merge test "at least 32 distinct codes of length
      i + 1 start with p" holds exactly when all 32 children of p are in the
      working set. */
  lemma GroupIsFullSiblingGroup(w: set<string>, i: nat, p: string)
    requires |p| == i
    requires forall c :: c in w ==> IsBase32Code(c)
    ensures |Group(w, i, p)| >= 32 <==> ChildSet({p}) <= w
  {
    var g := Group(w, i, p);
    NextPrecisionSet(p);
    forall c | c in g ensures c in ChildSet({p}) {
      ChildSetMember({p}, c);
    }
    if ChildSet({p}) <= w {
      forall c | c in ChildSet({p}) ensures c in g {
        ChildSetMember({p}, c);
      }
      SubsetCard(ChildSet({p}), g);
    }
    if |g| >= 32 {
      SubsetFullCard(g, ChildSet({p}));
    }
  }

  // ---------------------------------------------------------------------
  // The level loop

  /** The loop's output has no repeated code, and each output code either
      was in its working set or is no longer than the current target. */
  lemma {:induction false} LevelsNoDuplicates(w: set<string>, i: int, min: int)
    requires min >= 1
    ensures NoDuplicates(Levels(w, i, min))
    ensures forall o :: o in Levels(w, i, min) ==> o in w || |o| <= i
    decreases i - min + 1
  {
    hide MergeLevel, Group;
    if i < min || |w| < 32 {
      SetNoDuplicates(w);
    } else {
      var r := MergeLevel(w, i);
      var rest := Levels(r.working, i - 1, min);
      assert Levels(w, i, min) == LevelThenRest(w, i, min) == multiset(r.emitted) + rest;
      LevelsNoDuplicates(r.working, i - 1, min);
      forall c | c in r.emitted || c in r.working
        ensures (c in r.emitted ==> c in w && |c| >= i + 1) && (c in r.working ==> |c| <= i)
      {
        MergeLevelOrigin(w, i, c);
      }
      NoDuplicatesCompose(w, i, r.emitted, r.working, rest);
    }
  }

  /** A set read as a multiset holds each of its codes once. Stated apart so
      that the loop's proof need not unfold multiset conversion next to the
      definitions of the loop. */
  lemma SetNoDuplicates(w: set<string>)
    ensures NoDuplicates(multiset(w))
  {
  }

  /** Duplicate-freedom passes through one level: the level emits distinct
      codes of at least the merge length, and everything after it is shorter. */
  lemma NoDuplicatesCompose(w: set<string>, i: int, emitted: set<string>,
                            working: set<string>, rest: multiset<string>)
    requires forall c :: c in emitted ==> c in w && |c| >= i + 1
    requires forall c :: c in working ==> |c| <= i
    requires NoDuplicates(rest)
    requires forall o :: o in rest ==> o in working || |o| <= i - 1
    ensures NoDuplicates(multiset(emitted) + rest)
    ensures forall o :: o in multiset(emitted) + rest ==> o in w || |o| <= i
  {
    var out := multiset(emitted) + rest;
    forall o | o in out ensures out[o] == 1 {
      if o in emitted {
        assert o !in rest;
      }
    }
  }

  /** Every code of the working set has a prefix (possibly itself) in the
      loop's output: it is emitted as it is, kept for the next level, or
      merged into its prefix, which the next level covers in turn. */
  lemma {:induction false} LevelsCover(w: set<string>, i: int, min: int, c: string)
    requires min >= 1
    requires c in w
    ensures Covered(Levels(w, i, min), c)
    decreases i - min + 1
  {
    if i < min || |w| < 32 {
      CoveredStep(c, c, multiset(w), multiset{}, Levels(w, i, min));
    } else {
      var r := MergeLevel(w, i);
      var rest := Levels(r.working, i - 1, min);
      assert Levels(w, i, min) == LevelThenRest(w, i, min) == multiset(r.emitted) + rest;
      MergeLevelFate(w, i, c);
      if c in r.emitted {
        CoveredStep(c, c, multiset(r.emitted), rest, Levels(w, i, min));
      } else {
        var p := if c in r.working then c else c[..i];
        LevelsCover(r.working, i - 1, min, p);
        CoveredStep(c, p, multiset(r.emitted), rest, Levels(w, i, min));
      }
    }
  }

  /** A code is covered by a sum of multisets when it is in the first, or
      when one of its prefixes is covered by the second. */
  lemma CoveredStep(c: string, p: string, now: multiset<string>, rest: multiset<string>,
                    out: multiset<string>)
    requires out == now + rest
    requires c in now || (IsPrefix(p, c) && Covered(rest, p))
    ensures Covered(out, c)
  {
    if c in now {
      assert c in out && IsPrefix(c, c);
    } else {
      var o :| o in rest && IsPrefix(o, p);
      PrefixTransitive(o, p, c);
      assert o in out;
    }
  }

  /** If the working set holds only justified codes, so does the output. */
  lemma {:induction false} LevelsJustified(w: set<string>, i: int, min: int, inputs: set<string>)
    requires min >= 1
    requires forall c :: c in w ==> Justified(c, inputs, min)
    ensures forall o :: o in Levels(w, i, min) ==> Justified(o, inputs, min)
    decreases i - min + 1
  {
    hide MergeLevel, Group;
    if i >= min && |w| >= 32 {
      var r := MergeLevel(w, i);
      var rest := Levels(r.working, i - 1, min);
      assert Levels(w, i, min) == LevelThenRest(w, i, min) == multiset(r.emitted) + rest;
      MergeLevelJustified(w, i, inputs, min);
      LevelsJustified(r.working, i - 1, min, inputs);
      forall c | c in r.emitted ensures Justified(c, inputs, min) {
        MergeLevelOrigin(w, i, c);
      }
    }
  }

  // ---------------------------------------------------------------------
  // The compressor

  /** With no codes, a non-positive minimum, or no code longer than the
      minimum, the compressor hands back its input, duplicates included. */
  lemma CompressUnchanged(codes: seq<string>, min: int)
    requires |codes| == 0 || min <= 0 || forall c :: c in codes ==> |c| <= min
    ensures Compress(codes, min) == multiset(codes)
  {
    if |codes| > 0 && min > 0 {
      var m := MaxLen(codes);
      var c :| c in codes && |c| == m;
    }
  }

  /** Coverage: every input code lies inside some output code. */
  lemma CompressCovers(codes: seq<string>, min: int)
    ensures forall x :: x in codes ==> Covered(Compress(codes, min), x)
  {
    var out := Compress(codes, min);
    forall x | x in codes ensures Covered(out, x) {
      if |codes| == 0 || min <= 0 || MaxLen(codes) <= min {
        assert x in out && IsPrefix(x, x);
      } else {
        LevelsCover(SetOf(codes), MaxLen(codes) - 1, min, x);
      }
    }
  }

  /** Nothing invented: every output code is an input code, or a code of at
      least the minimum length standing for at least 32 distinct input codes
      inside it. */
  lemma CompressInventsNothing(codes: seq<string>, min: int)
    ensures forall o :: o in Compress(codes, min) ==>
              o in codes || (|o| >= min && |Descendants(o, SetOf(codes))| >= 32)
  {
    var inputs := SetOf(codes);
    if !(|codes| == 0 || min <= 0 || MaxLen(codes) <= min) {
      LevelsJustified(inputs, MaxLen(codes) - 1, min, inputs);
    }
  }

  /** Past the early returns, the loop starts one symbol below the longest
      code, so the branch for codes longer than the merge length never finds
      anything. */
  lemma CompressLongerBranchIdle(codes: seq<string>, min: int)
    requires min >= 1
    requires exists c :: c in codes && |c| > min
    ensures LongerBranchIdle(SetOf(codes), MaxLen(codes) - 1, min)
  {
    LevelsLongerBranchIdle(SetOf(codes), MaxLen(codes) - 1, min);
  }

  /** Past the early returns, the compressor never returns more codes than
      the input has distinct codes. */
  lemma CompressAtMostDistinct(codes: seq<string>, min: int)
    requires min >= 1
    requires exists c :: c in codes && |c| > min
    ensures |Compress(codes, min)| <= |SetOf(codes)|
  {
    hide MergeLevel, Group, LevelThenRest;
    var c :| c in codes && |c| > min;
    assert MaxLen(codes) > min;
  }

  /** Once the compressor gets past its early returns, no code comes out
      twice, even when the input repeats codes. */
  lemma CompressNoDuplicates(codes: seq<string>, min: int)
    requires min >= 1
    requires exists c :: c in codes && |c| > min
    ensures NoDuplicates(Compress(codes, min))
  {
    hide MergeLevel, Group, Levels, LevelThenRest;
    var c :| c in codes && |c| > min;
    assert MaxLen(codes) > min;
    LevelsNoDuplicates(SetOf(codes), MaxLen(codes) - 1, min);
  }
}
