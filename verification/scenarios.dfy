/** The compressor on complete sibling groups, and the two test cases of the
    repository: one group of 32 children, and three levels of expansion
    below a code plus one unrelated code. */
module Scenarios {
  import opened Geohash
  import opened Compression
  import opened CompressionProps

  /** Children are one symbol longer than their parents. */
  lemma ChildSetLengths(parents: set<string>, n: nat)
    requires forall t :: t in parents ==> |t| == n
    ensures forall c :: c in ChildSet(parents) ==> |c| == n + 1
  {
    forall c | c in ChildSet(parents) ensures |c| == n + 1 {
      ChildSetMember(parents, c);
    }
  }

  /** Children stay inside every cell that holds all their parents. */
  lemma ChildSetPrefix(parents: set<string>, p: string)
    requires forall t :: t in parents ==> IsPrefix(p, t)
    ensures forall c :: c in ChildSet(parents) ==> IsPrefix(p, c)
  {
    forall c | c in ChildSet(parents) ensures IsPrefix(p, c) {
      ChildSetMember(parents, c);
      PrefixTransitive(p, c[..|c| - 1], c);
    }
  }

  /** Expanding a nonempty set of codes yields at least 32 codes. */
  lemma ChildSetLarge(parents: set<string>)
    requires parents != {}
    ensures |ChildSet(parents)| >= 32
  {
    var t :| t in parents;
    NextPrecisionSet(t);
    forall c | c in ChildSet({t}) ensures c in ChildSet(parents) {
      ChildSetMember({t}, c);
      ChildSetMember(parents, c);
    }
    SubsetCard(ChildSet({t}), ChildSet(parents));
  }

  /** The shape of one layer: parents of length `i`, all their children, and
      fewer than 32 stray codes of length `i + 1` outside every parent. */
  predicate Layer(parents: set<string>, stray: set<string>, i: nat) {
    (forall t :: t in parents ==> |t| == i)
    && (forall x :: x in stray ==> |x| == i + 1 && x[..i] !in parents)
    && |stray| < 32
  }

  /** In a layer, the group of a parent holds all its 32 children. */
  lemma LayerGroupOfParent(parents: set<string>, stray: set<string>, i: nat, t: string)
    requires Layer(parents, stray, i) && t in parents
    ensures |Group(ChildSet(parents) + stray, i, t)| >= 32
  {
    var g := Group(ChildSet(parents) + stray, i, t);
    NextPrecisionSet(t);
    forall c | c in ChildSet({t}) ensures c in g {
      ChildSetMember({t}, c);
      ChildSetMember(parents, c);
    }
    SubsetCard(ChildSet({t}), g);
  }

  /** In a layer, the group of any other prefix holds only stray codes, so
      fewer than 32. */
  lemma LayerGroupOfOther(parents: set<string>, stray: set<string>, i: nat, p: string)
    requires Layer(parents, stray, i) && p !in parents
    ensures |Group(ChildSet(parents) + stray, i, p)| < 32
  {
    var g := Group(ChildSet(parents) + stray, i, p);
    forall c | c in g ensures c in stray {
      if c in ChildSet(parents) {
        ChildSetMember(parents, c);
      }
    }
    SubsetCard(g, stray);
  }

  /** One level over a layer keeps nothing but parents. */
  lemma LayerWorkingWithin(parents: set<string>, stray: set<string>, i: nat)
    requires Layer(parents, stray, i)
    ensures MergeLevel(ChildSet(parents) + stray, i).working <= parents
  {
    var w := ChildSet(parents) + stray;
    forall c | c in MergeLevel(w, i).working ensures c in parents {
      MergeLevelOrigin(w, i, c);
      if c !in parents {
        if c in ChildSet(parents) {
          ChildSetMember(parents, c);
        }
        LayerGroupOfOther(parents, stray, i, c);
      }
    }
  }

  /** One level over a layer keeps every parent. */
  lemma LayerWorkingAll(parents: set<string>, stray: set<string>, i: nat)
    requires Layer(parents, stray, i)
    ensures parents <= MergeLevel(ChildSet(parents) + stray, i).working
  {
    var w := ChildSet(parents) + stray;
    forall t | t in parents ensures t in MergeLevel(w, i).working {
      var c := Child(t, 0);
      ChildSetMember(parents, c);
      assert c[..i] == t;
      LayerGroupOfParent(parents, stray, i, t);
      MergeLevelFate(w, i, c);
    }
  }

  /** One level over a layer emits exactly the stray codes. */
  lemma LayerEmitted(parents: set<string>, stray: set<string>, i: nat)
    requires Layer(parents, stray, i)
    ensures MergeLevel(ChildSet(parents) + stray, i).emitted == stray
  {
    var w := ChildSet(parents) + stray;
    var r := MergeLevel(w, i);
    forall c | c in r.emitted ensures c in stray {
      MergeLevelOrigin(w, i, c);
      if c in ChildSet(parents) {
        ChildSetMember(parents, c);
        LayerGroupOfParent(parents, stray, i, c[..i]);
        MergeLevelFate(w, i, c);
      }
    }
    forall x | x in stray ensures x in r.emitted {
      LayerGroupOfOther(parents, stray, i, x[..i]);
      MergeLevelFate(w, i, x);
    }
  }

  /** Two sets, each contained in the other, are equal. Stated apart so that
      the proof below applies set extensionality to its two sets only. */
  lemma SubsetAntisymmetric(a: set<string>, b: set<string>)
    requires a <= b && b <= a
    ensures a == b
  {
  }

  /** One level over complete sibling groups plus a few stray codes: every
      complete group of children of `parents` merges into its parent, and
      the stray codes, whose prefixes are not parents and which are fewer
      than 32, are emitted. */
  lemma MergeLevelFullLayer(parents: set<string>, stray: set<string>, i: nat)
    requires Layer(parents, stray, i)
    ensures MergeLevel(ChildSet(parents) + stray, i) == LevelResult(parents, stray)
  {
    var r := MergeLevel(ChildSet(parents) + stray, i);
    LayerWorkingWithin(parents, stray, i);
    LayerWorkingAll(parents, stray, i);
    SubsetAntisymmetric(r.working, parents);
    LayerEmitted(parents, stray, i);
  }

  /** One step of the level loop: at a target no lower than the minimum and
      with at least 32 working codes, the level's emitted codes join the
      result of the rest of the loop. */
  lemma LevelsStep(w: set<string>, i: int, min: int, r: LevelResult)
    requires 1 <= min <= i && |w| >= 32 && r == MergeLevel(w, i)
    ensures Levels(w, i, min) == multiset(r.emitted) + Levels(r.working, i - 1, min)
  {
  }

  /** The level loop on fewer than 32 codes stops at once and returns them. */
  lemma LevelsSmall(w: set<string>, i: int, min: int)
    requires min >= 1 && |w| < 32
    ensures Levels(w, i, min) == multiset(w)
  {
  }

  /** A nonempty list whose codes all have length `n` has longest length `n`. */
  lemma MaxLenUniform(codes: seq<string>, n: nat)
    requires |codes| > 0 && forall c :: c in SetOf(codes) ==> |c| == n
    ensures MaxLen(codes) == n
  {
    var m := MaxLen(codes);
    var c :| c in codes && |c| == m;
    assert c in SetOf(codes);
  }

  /** A nonempty list of codes that holds, as a set, exactly `s`, all of
      length `n`. */
  predicate UniformCodes(codes: seq<string>, s: set<string>, n: nat) {
    |codes| > 0 && SetOf(codes) == s && forall c :: c in s ==> |c| == n
  }

  /** A nonempty list of codes of one length `n` above the minimum goes,
      as a set, through the level loop from `n - 1`. */
  lemma CompressUniform(codes: seq<string>, s: set<string>, min: int, n: nat, i: int)
    requires UniformCodes(codes, s, n) && 1 <= min < n && i == n - 1
    ensures Compress(codes, min) == Levels(s, i, min)
  {
    hide Levels, LevelThenRest, MergeLevel, Group;
    MaxLenUniform(codes, n);
  }

  /** The children of a nonempty set of codes of one length inside `p`
      form a nonempty set of codes one symbol longer, still inside `p`. */
  lemma ChildLayer(parents: set<string>, n: nat, p: string)
    requires parents != {}
    requires forall t :: t in parents ==> |t| == n && IsPrefix(p, t)
    ensures ChildSet(parents) != {}
    ensures forall c :: c in ChildSet(parents) ==> |c| == n + 1 && IsPrefix(p, c)
  {
    ChildSetLarge(parents);
    ChildSetLengths(parents, n);
    ChildSetPrefix(parents, p);
  }

  /** The codes `n` symbols below `p`: `p` itself, its children, its
      grandchildren, and so on. */
  function Generation(p: string, n: nat): set<string>
    decreases n
  {
    if n == 0 then {p} else ChildSet(Generation(p, n - 1))
  }

  /** Every generation below `p` is nonempty, and its codes are `n` symbols
      longer than `p` and lie inside `p`. */
  lemma {:induction false} GenerationShape(p: string, n: nat)
    ensures Generation(p, n) != {}
    ensures forall t :: t in Generation(p, n) ==> |t| == |p| + n && IsPrefix(p, t)
    decreases n
  {
    if n == 0 {
      assert IsPrefix(p, p);
    } else {
      GenerationShape(p, n - 1);
      ChildLayer(Generation(p, n - 1), |p| + n - 1, p);
    }
  }

  /** The 0-th generation below `p` is `p` alone. This and the next lemma
      carry the definition of `Generation` into the proofs below that hide
      it. */
  lemma GenerationZero(p: string)
    ensures Generation(p, 0) == {p}
  {
  }

  /** The `n`-th generation below `p` is the child set of the one before. */
  lemma GenerationNext(p: string, n: nat)
    requires n >= 1
    ensures Generation(p, n) == ChildSet(Generation(p, n - 1))
  {
  }

  /** One level over the `n`-th generation below `p` plus fewer than 32
      stray codes of the same length outside the previous generation merges
      the generation into the previous one and emits the stray codes. */
  lemma GenerationMerges(p: string, stray: set<string>, n: nat, i: nat)
    requires n >= 1 && i + 1 == |p| + n
    requires |stray| < 32 && forall x :: x in stray ==> |x| == i + 1 && x[..i] !in Generation(p, n - 1)
    ensures |Generation(p, n) + stray| >= 32
    ensures MergeLevel(Generation(p, n) + stray, i) == LevelResult(Generation(p, n - 1), stray)
  {
    GenerationShape(p, n - 1);
    GenerationNext(p, n);
    ChildSetLarge(Generation(p, n - 1));
    SubsetCard(ChildSet(Generation(p, n - 1)), ChildSet(Generation(p, n - 1)) + stray);
    MergeLevelFullLayer(Generation(p, n - 1), stray, i);
  }

  /** A code of length `|p| + n` outside `p` lies outside every code of the
      generation before the `n`-th below `p`. */
  lemma GenerationStray(p: string, x: string, n: nat, i: nat)
    requires n >= 1 && i + 1 == |p| + n
    requires |x| == |p| + n && x[..|p|] != p
    ensures forall y :: y in {x} ==> |y| == i + 1 && y[..i] !in Generation(p, n - 1)
  {
    hide Levels, LevelThenRest, MergeLevel, Compress, Generation, ChildSet;
    GenerationShape(p, n - 1);
    assert x[..i][..|p|] == x[..|p|];
  }

  /** The level loop over the `n`-th generation below `p` plus fewer than 32
      stray codes of the same length outside the previous generation, from
      target length `|p| + n - 1` down to a minimum no longer than `p`,
      leaves `p` and the stray codes: every level merges complete sibling
      groups. The proof composes the lemmas above only, so the definitions
      of the loop and of the sets are hidden from it. */
  lemma {:induction false} LevelsGeneration(p: string, stray: set<string>, n: nat, i: int, min: int)
    requires n >= 1 && i + 1 == |p| + n && 1 <= min <= |p|
    requires |stray| < 32 && forall x :: x in stray ==> |x| == i + 1 && x[..i] !in Generation(p, n - 1)
    ensures Levels(Generation(p, n) + stray, i, min) == multiset(stray) + multiset{p}
    decreases n
  {
    hide Levels, LevelThenRest, MergeLevel, ChildSet, Generation;
    GenerationMerges(p, stray, n, i);
    LevelsStep(Generation(p, n) + stray, i, min, LevelResult(Generation(p, n - 1), stray));
    if n == 1 {
      GenerationZero(p);
      LevelsSmall({p}, i - 1, min);
    } else {
      LevelsGeneration(p, {}, n - 1, i - 1, min);
      assert Generation(p, n - 1) + {} == Generation(p, n - 1);
    }
  }

  /** Compressing any list that holds, as a set, exactly the `n`-th
      generation below `p`, with a minimum no longer than `p`, gives `p`. */
  lemma CompressGeneration(codes: seq<string>, p: string, n: nat, min: int)
    requires n >= 1 && 1 <= min <= |p|
    requires UniformCodes(codes, Generation(p, n), |p| + n)
    ensures Compress(codes, min) == multiset{p}
  {
    hide Levels, LevelThenRest, MergeLevel, ChildSet, Generation, Compress;
    CompressUniform(codes, Generation(p, n), min, |p| + n, |p| + n - 1);
    LevelsGeneration(p, {}, n, |p| + n - 1, min);
    assert Generation(p, n) + {} == Generation(p, n);
  }

  /** Compressing any list that holds, as a set, the `n`-th generation below
      `p` and one code `x` of the same length outside `p`, with a minimum no
      longer than `p`, gives `p` and `x`. */
  lemma CompressGenerationStray(codes: seq<string>, p: string, x: string, n: nat, min: int)
    requires n >= 1 && 1 <= min <= |p|
    requires |x| == |p| + n && x[..|p|] != p
    requires UniformCodes(codes, Generation(p, n) + {x}, |p| + n)
    ensures Compress(codes, min) == multiset{p, x}
  {
    hide Levels, LevelThenRest, MergeLevel, ChildSet, Generation, Compress;
    CompressUniform(codes, Generation(p, n) + {x}, min, |p| + n, |p| + n - 1);
    GenerationStray(p, x, n, |p| + n - 1);
    LevelsGeneration(p, {x}, n, |p| + n - 1, min);
    assert multiset({x}) + multiset{p} == multiset{p, x};
  }

  /** The 32 children of `p` form, as a set, its first generation, all one
      symbol longer than `p`. */
  lemma SiblingCodes(p: string)
    ensures UniformCodes(NextPrecision(p), Generation(p, 1), |p| + 1)
  {
    hide Levels, LevelThenRest, MergeLevel, Compress, Generation, ChildSet, NextPrecision, SetOf;
    NextPrecisionSet(p);
    ChildSetLengths({p}, |p|);
    GenerationZero(p);
    GenerationNext(p, 1);
  }

  /** Compressing the 32 children of `p` with a minimum no longer than `p`
      gives exactly `p`. */
  lemma CompressSiblingGroup(p: string, min: int)
    requires 1 <= min <= |p|
    ensures Compress(NextPrecision(p), min) == multiset{p}
  {
    SiblingCodes(p);
    CompressGeneration(NextPrecision(p), p, 1, min);
  }

  // The 32 children of "tdnu2" are written out in four blocks of eight and
  // joined in two steps: comparing all 32 literals in one proof costs the
  // verifier several times the resources of the four small ones together.

  /** Children 0 to 7 of "tdnu2", written out. */
  lemma TdnuChildren0()
    ensures NextPrecision("tdnu2")[0..8] == ["tdnu20", "tdnu21", "tdnu22", "tdnu23", "tdnu24", "tdnu25", "tdnu26", "tdnu27"]
  {
    var r := NextPrecision("tdnu2");
    assert r[0] == "tdnu20";
    assert r[1] == "tdnu21";
    assert r[2] == "tdnu22";
    assert r[3] == "tdnu23";
    assert r[4] == "tdnu24";
    assert r[5] == "tdnu25";
    assert r[6] == "tdnu26";
    assert r[7] == "tdnu27";
  }

  /** Children 8 to 15 of "tdnu2", written out. */
  lemma TdnuChildren1()
    ensures NextPrecision("tdnu2")[8..16] == ["tdnu28", "tdnu29", "tdnu2b", "tdnu2c", "tdnu2d", "tdnu2e", "tdnu2f", "tdnu2g"]
  {
    var r := NextPrecision("tdnu2");
    assert r[8] == "tdnu28";
    assert r[9] == "tdnu29";
    assert r[10] == "tdnu2b";
    assert r[11] == "tdnu2c";
    assert r[12] == "tdnu2d";
    assert r[13] == "tdnu2e";
    assert r[14] == "tdnu2f";
    assert r[15] == "tdnu2g";
  }

  /** Children 16 to 23 of "tdnu2", written out. */
  lemma TdnuChildren2()
    ensures NextPrecision("tdnu2")[16..24] == ["tdnu2h", "tdnu2j", "tdnu2k", "tdnu2m", "tdnu2n", "tdnu2p", "tdnu2q", "tdnu2r"]
  {
    var r := NextPrecision("tdnu2");
    assert r[16] == "tdnu2h";
    assert r[17] == "tdnu2j";
    assert r[18] == "tdnu2k";
    assert r[19] == "tdnu2m";
    assert r[20] == "tdnu2n";
    assert r[21] == "tdnu2p";
    assert r[22] == "tdnu2q";
    assert r[23] == "tdnu2r";
  }

  /** Children 24 to 31 of "tdnu2", written out. */
  lemma TdnuChildren3()
    ensures NextPrecision("tdnu2")[24..32] == ["tdnu2s", "tdnu2t", "tdnu2u", "tdnu2v", "tdnu2w", "tdnu2x", "tdnu2y", "tdnu2z"]
  {
    var r := NextPrecision("tdnu2");
    assert r[24] == "tdnu2s";
    assert r[25] == "tdnu2t";
    assert r[26] == "tdnu2u";
    assert r[27] == "tdnu2v";
    assert r[28] == "tdnu2w";
    assert r[29] == "tdnu2x";
    assert r[30] == "tdnu2y";
    assert r[31] == "tdnu2z";
  }

  /** Children 0 to 15 of "tdnu2", written out. */
  lemma TdnuChildrenLow()
    ensures NextPrecision("tdnu2")[0..16] == ["tdnu20", "tdnu21", "tdnu22", "tdnu23", "tdnu24", "tdnu25", "tdnu26", "tdnu27", "tdnu28", "tdnu29", "tdnu2b", "tdnu2c", "tdnu2d", "tdnu2e", "tdnu2f", "tdnu2g"]
  {
    var r := NextPrecision("tdnu2");
    TdnuChildren0();
    TdnuChildren1();
    assert r[0..16] == r[0..8] + r[8..16];
  }

  /** Children 16 to 31 of "tdnu2", written out. */
  lemma TdnuChildrenHigh()
    ensures NextPrecision("tdnu2")[16..32] == ["tdnu2h", "tdnu2j", "tdnu2k", "tdnu2m", "tdnu2n", "tdnu2p", "tdnu2q", "tdnu2r", "tdnu2s", "tdnu2t", "tdnu2u", "tdnu2v", "tdnu2w", "tdnu2x", "tdnu2y", "tdnu2z"]
  {
    var r := NextPrecision("tdnu2");
    TdnuChildren2();
    TdnuChildren3();
    assert r[16..32] == r[16..24] + r[24..32];
  }

  /** The children of "tdnu2", written out. */
  lemma TdnuChildren()
    ensures NextPrecision("tdnu2") ==
      ["tdnu20", "tdnu21", "tdnu22", "tdnu23", "tdnu24", "tdnu25", "tdnu26", "tdnu27",
       "tdnu28", "tdnu29", "tdnu2b", "tdnu2c", "tdnu2d", "tdnu2e", "tdnu2f", "tdnu2g",
       "tdnu2h", "tdnu2j", "tdnu2k", "tdnu2m", "tdnu2n", "tdnu2p", "tdnu2q", "tdnu2r",
       "tdnu2s", "tdnu2t", "tdnu2u", "tdnu2v", "tdnu2w", "tdnu2x", "tdnu2y", "tdnu2z"]
  {
    var r := NextPrecision("tdnu2");
    TdnuChildrenLow();
    TdnuChildrenHigh();
    assert r == r[0..16] + r[16..32];
  }

  /** The repository's merge test: the 32 children of "tdnu2", compressed
      with minimum 3, give exactly "tdnu2". */
  lemma ScenarioSiblingMerge()
    ensures Compress(
      ["tdnu20", "tdnu21", "tdnu22", "tdnu23", "tdnu24", "tdnu25", "tdnu26", "tdnu27",
       "tdnu28", "tdnu29", "tdnu2b", "tdnu2c", "tdnu2d", "tdnu2e", "tdnu2f", "tdnu2g",
       "tdnu2h", "tdnu2j", "tdnu2k", "tdnu2m", "tdnu2n", "tdnu2p", "tdnu2q", "tdnu2r",
       "tdnu2s", "tdnu2t", "tdnu2u", "tdnu2v", "tdnu2w", "tdnu2x", "tdnu2y", "tdnu2z"], 3)
      == multiset{"tdnu2"}
  {
    CompressSiblingGroup("tdnu2", 3);
    TdnuChildren();
  }

  /** Appending a code to a list adds it to the list's set of codes. */
  lemma SetOfAppend(codes: seq<string>, x: string)
    ensures SetOf(codes + [x]) == SetOf(codes) + {x}
  {
    assert forall c :: c in codes + [x] <==> c in codes || c == x;
  }

  /** Expanding the children of `p` twice reaches, as a set, the third
      generation below `p`. */
  lemma NestedExplode(p: string)
    ensures SetOf(Explode(Explode(NextPrecision(p)))) == Generation(p, 3)
  {
    var e1 := NextPrecision(p);
    NextPrecisionSet(p);
    assert Generation(p, 1) == ChildSet({p});
    ExplodeSet(e1);
    assert Generation(p, 2) == ChildSet(Generation(p, 1));
    ExplodeSet(Explode(e1));
    assert Generation(p, 3) == ChildSet(Generation(p, 2));
  }

  /** The list built by expanding the children of `p` twice and appending
      `x` holds, as a set, the third generation below `p` and `x`, all of
      length `|p| + 3` when `x` is. */
  lemma NestedCodes(p: string, x: string)
    requires |x| == |p| + 3
    ensures UniformCodes(Explode(Explode(NextPrecision(p))) + [x], Generation(p, 3) + {x}, |p| + 3)
  {
    hide Levels, LevelThenRest, MergeLevel, Compress, Generation, ChildSet, Explode, NextPrecision, SetOf;
    NestedExplode(p);
    SetOfAppend(Explode(Explode(NextPrecision(p))), x);
    GenerationShape(p, 3);
  }

  /** The repository's compression test: the great-grandchildren of "wx4g0"
      (its children expanded twice) plus the unrelated code "wx4g1xwc",
      compressed with minimum 5, give "wx4g0" and "wx4g1xwc". */
  lemma ScenarioThreeLevels()
    ensures Compress(Explode(Explode(NextPrecision("wx4g0"))) + ["wx4g1xwc"], 5)
            == multiset{"wx4g0", "wx4g1xwc"}
  {
    hide Levels, LevelThenRest, MergeLevel, Compress, Generation, ChildSet, Explode, NextPrecision;
    assert "wx4g1xwc"[..5][4] != "wx4g0"[4];
    NestedCodes("wx4g0", "wx4g1xwc");
    CompressGenerationStray(Explode(Explode(NextPrecision("wx4g0"))) + ["wx4g1xwc"],
                            "wx4g0", "wx4g1xwc", 3, 5);
  }
}
