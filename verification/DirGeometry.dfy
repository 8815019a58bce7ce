/**
 Where a hashed directory puts its blocks: level after level, bucket after bucket.
 */
module DirGeometry {
  import opened DentryArea
  import opened Prelude

  /** MAX_DIR_HASH_DEPTH, MAX_DIR_BUCKETS, i_dir_level and NR_DENTRY_IN_BLOCK. */
  datatype Geometry = Geometry(maxDepth: nat, maxBuckets: nat, dirLevel: nat, perBlock: nat)

  /** There are buckets, and a block can hold the longest name. */
  predicate Sane(g: Geometry) {
    g.maxBuckets > 0 && g.perBlock >= Slots(NAME_LEN)
  }

  function Pow2(n: nat): (r: nat)
    ensures r > 0
  {
    if n == 0 then 1 else 2 * Pow2(n - 1)
  }

  function DirBuckets(g: Geometry, level: nat): (r: nat)
    requires Sane(g)
    ensures r > 0
  {
    if level + g.dirLevel < g.maxDepth / 2 then Pow2(level + g.dirLevel) else g.maxBuckets
  }

  function BucketBlocks(g: Geometry, level: nat): (r: nat)
    ensures if level < g.maxDepth / 2 then r == 2 else r == 4
  {
    if level < g.maxDepth / 2 then 2 else 4
  }

  /** Buckets double from level to level, starting at 2^dirLevel, until half of the maximal depth; then the maximum. */
  lemma BucketsDouble(g: Geometry, level: nat)
    requires Sane(g)
    ensures level + g.dirLevel == 0 < g.maxDepth / 2 ==> DirBuckets(g, level) == 1
    ensures level + 1 + g.dirLevel < g.maxDepth / 2 ==> DirBuckets(g, level + 1) == 2 * DirBuckets(g, level)
    ensures level + g.dirLevel >= g.maxDepth / 2 ==> DirBuckets(g, level) == g.maxBuckets
    // a directory with a higher i_dir_level skips the first levels
    ensures DirBuckets(g.(dirLevel := g.dirLevel + 1), level) == DirBuckets(g, level + 1)
  {
  }

  lemma {:induction false} Pow2Add(a: nat, b: nat)
    ensures Pow2(a + b) == Pow2(a) * Pow2(b)
  {
    if a > 0 {
      Pow2Add(a - 1, b);
      assert Pow2(a + b) == 2 * Pow2(a - 1 + b);
      assert 2 * (Pow2(a - 1) * Pow2(b)) == (2 * Pow2(a - 1)) * Pow2(b);
    }
  }

  /** First block of a level. */
  function LevelStart(g: Geometry, level: nat): nat
    requires Sane(g)
  {
    if level == 0 then 0
    else LevelStart(g, level - 1) + DirBuckets(g, level - 1) * BucketBlocks(g, level - 1)
  }

  /** While buckets double, a level starts where twice the buckets of all levels before end. */
  lemma {:induction false} EarlyLevelStart(g: Geometry, level: nat)
    requires Sane(g) && level + g.dirLevel <= g.maxDepth / 2
    ensures LevelStart(g, level) == 2 * ((Pow2(level) - 1) * Pow2(g.dirLevel))
  {
    if level > 0 {
      EarlyLevelStart(g, level - 1);
      Pow2Add(level - 1, g.dirLevel);
      var a, b := Pow2(level - 1), Pow2(g.dirLevel);
      Distribute(a - 1, a, b);
      assert Pow2(level) == 2 * a;
      hide Pow2;
    }
  }

  lemma Distribute(x: int, y: int, b: int)
    ensures x * b + y * b == (x + y) * b
  {
  }

  /** The first level with the maximal number of buckets. */
  function FullLevel(g: Geometry): nat {
    if g.dirLevel <= g.maxDepth / 2 then g.maxDepth / 2 - g.dirLevel else 0
  }

  /** From there on every level has as many buckets, of two blocks up to half of the maximal depth and of four after. */
  lemma {:induction false} LateLevelStart(g: Geometry, level: nat)
    requires Sane(g) && level >= FullLevel(g)
    ensures
      var half := Min(level, g.maxDepth / 2);
      LevelStart(g, level) ==
        LevelStart(g, FullLevel(g)) + g.maxBuckets * (2 * (half - FullLevel(g)) + 4 * (level - half))
  {
    if level > FullLevel(g) {
      LateLevelStart(g, level - 1);
      var half := Min(level - 1, g.maxDepth / 2);
      var n := 2 * (half - FullLevel(g)) + 4 * (level - 1 - half);
      BucketsDouble(g, level - 1);
      LevelStep(g, level - 1, n);
    }
  }

  lemma LevelStep(g: Geometry, level: nat, n: int)
    requires Sane(g) && DirBuckets(g, level) == g.maxBuckets
    ensures LevelStart(g, level + 1) + g.maxBuckets * n ==
      LevelStart(g, level) + g.maxBuckets * (n + if level < g.maxDepth / 2 then 2 else 4)
  {
    hide DirBuckets;
    Distribute(n, BucketBlocks(g, level), g.maxBuckets);
  }

  /** First block of a bucket. */
  function BucketStart(g: Geometry, level: nat, idx: nat): nat
    requires Sane(g)
  {
    LevelStart(g, level) + idx * BucketBlocks(g, level)
  }

  /** dir_block_index. */
  method DirBlockIndex(g: Geometry, level: nat, idx: nat) returns (bidx: nat)
    requires Sane(g)
    ensures bidx == BucketStart(g, level, idx)
    ensures level + g.dirLevel <= g.maxDepth / 2 && level < g.maxDepth / 2 ==>
      bidx == 2 * ((Pow2(level) - 1) * Pow2(g.dirLevel) + idx)
  {
    hide Pow2, DirBuckets;
    bidx := 0;
    for i := 0 to level
      invariant bidx == LevelStart(g, i)
    {
      bidx := bidx + DirBuckets(g, i) * BucketBlocks(g, i);
    }
    bidx := bidx + idx * BucketBlocks(g, level);
    if level + g.dirLevel <= g.maxDepth / 2 {
      EarlyLevelStart(g, level);
    }
  }

  /** Block b belongs to bucket idx of the level. */
  predicate InBucket(g: Geometry, level: nat, idx: nat, b: nat)
    requires Sane(g)
  {
    idx < DirBuckets(g, level) && BucketStart(g, level, idx) <= b < BucketStart(g, level, idx) + BucketBlocks(g, level)
  }

  /** A bucket stays inside its level. */
  lemma BucketInLevel(g: Geometry, level: nat, idx: nat, b: nat)
    requires Sane(g) && InBucket(g, level, idx, b)
    ensures LevelStart(g, level) <= b < LevelStart(g, level + 1)
  {
    var w := BucketBlocks(g, level);
    if w == 2 {
      assert idx * 2 + 2 <= DirBuckets(g, level) * 2;
    } else {
      assert idx * 4 + 4 <= DirBuckets(g, level) * 4;
    }
  }

  lemma {:induction false} LevelsAscend(g: Geometry, l: nat, m: nat)
    requires Sane(g) && l <= m
    ensures LevelStart(g, l) <= LevelStart(g, m)
    decreases m - l
  {
    if l < m {
      LevelsAscend(g, l, m - 1);
    }
  }

  /** No block belongs to two buckets. */
  lemma BucketsDisjoint(g: Geometry, l: nat, i: nat, m: nat, j: nat, b: nat)
    requires Sane(g) && InBucket(g, l, i, b) && InBucket(g, m, j, b)
    ensures l == m && i == j
  {
    BucketInLevel(g, l, i, b);
    BucketInLevel(g, m, j, b);
    if l < m {
      LevelsAscend(g, l + 1, m);
    } else if m < l {
      LevelsAscend(g, m + 1, l);
    }
  }

  /** Every block below the start of a level belongs to a bucket of an earlier level. */
  lemma {:induction false} BucketsCover(g: Geometry, n: nat, b: nat) returns (level: nat, idx: nat)
    requires Sane(g) && b < LevelStart(g, n)
    ensures level < n && InBucket(g, level, idx, b)
  {
    if b < LevelStart(g, n - 1) {
      level, idx := BucketsCover(g, n - 1, b);
    } else {
      level := n - 1;
      var w := BucketBlocks(g, level);
      var o := b - LevelStart(g, level);
      idx := o / w;
      if w == 2 {
        assert o < DirBuckets(g, level) * 2;
      } else {
        assert o < DirBuckets(g, level) * 4;
      }
    }
  }
}
