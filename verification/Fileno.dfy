/**
 The packing of a file descriptor number: bits 0-4 the position in a bucket,
 bits 5-10 the bucket, bits 11-14 the filesystem index plus one.
 */
module Fileno {
  import opened Bits

  const FIRST: int := 2048
  const LAST: int := 32767

  function Make(bucket: nat, pos: nat, fs: nat): nat {
    Or(Or(pos, Shl(bucket, 5)), Shl(fs + 1, 11))
  }

  function FsIndex(fileno: nat): int {
    Field(fileno, 11, 14) - 1
  }

  function BucketIdx(fileno: nat): nat {
    Field(fileno, 5, 10)
  }

  function BucketPos(fileno: nat): nat {
    Field(fileno, 0, 4)
  }

  /** The fields a fileno of the table can hold. */
  predicate Fields(bucket: int, pos: int, fs: int) {
    0 <= bucket < 64 && 0 <= pos < 32 && 0 <= fs <= 14
  }

  /** A field shifted above a smaller one is added to it. */
  lemma PackTwo(hi: nat, lo: nat, k: nat, p: nat)
    requires Pow2(k) == p && lo < p && hi * p < WORD
    ensures Or(lo, Shl(hi, k)) == lo + p * hi
  {
    assert Shl(hi, k) == hi * Pow2(k) by { ModUnique(hi * p, WORD, 0, hi * p); }
    OrDisjoint(hi, lo, k);
  }

  lemma MakeIsSum(bucket: nat, pos: nat, fs: nat)
    requires Fields(bucket, pos, fs)
    ensures Make(bucket, pos, fs) == pos + 32 * bucket + 2048 * (fs + 1)
  {
    PackTwo(bucket, pos, 5, 32);
    PackTwo(fs + 1, pos + 32 * bucket, 11, 2048);
  }

  lemma ExtractorsAreDivMod(fileno: nat)
    ensures FsIndex(fileno) == fileno % 32768 / 2048 - 1
    ensures BucketIdx(fileno) == fileno % 2048 / 32
    ensures BucketPos(fileno) == fileno % 32
  {
    Pow2Values();
    FieldIsDivMod(fileno, 11, 14);
    FieldIsDivMod(fileno, 5, 10);
    FieldIsDivMod(fileno, 0, 4);
    assert Pow2(0) == 1;
  }

  lemma Digits(bucket: nat, pos: nat, fs: nat, f: int)
    requires Fields(bucket, pos, fs)
    requires f == pos + 32 * bucket + 2048 * (fs + 1)
    ensures FIRST <= f <= LAST
    ensures f % 32768 / 2048 - 1 == fs && f % 2048 / 32 == bucket && f % 32 == pos
  {
  }

  /** Every field triple fits in 15 bits, clears the reserved filenos, and is read back. */
  lemma ExtractUndoesMake(bucket: nat, pos: nat, fs: nat)
    requires Fields(bucket, pos, fs)
    ensures var f := Make(bucket, pos, fs);
      FIRST <= f <= LAST && BucketIdx(f) == bucket && BucketPos(f) == pos && FsIndex(f) == fs
  {
    MakeIsSum(bucket, pos, fs);
    var f := Make(bucket, pos, fs);
    ExtractorsAreDivMod(f);
    Digits(bucket, pos, fs, f);
  }

  lemma Recompose(f: int) returns (b: nat, p: nat, fs: nat)
    requires FIRST <= f <= LAST
    ensures b == f % 2048 / 32 && p == f % 32 && fs == f % 32768 / 2048 - 1
    ensures Fields(b, p, fs) && p + 32 * b + 2048 * (fs + 1) == f
  {
    b, p, fs := f % 2048 / 32, f % 32, f % 32768 / 2048 - 1;
    assert f % 2048 == 32 * b + p;
  }

  /** Every number in the range is the packing of its own extracted fields: the codec is a bijection. */
  lemma MakeUndoesExtract(f: int)
    requires FIRST <= f <= LAST
    ensures Fields(BucketIdx(f), BucketPos(f), FsIndex(f))
    ensures Make(BucketIdx(f), BucketPos(f), FsIndex(f)) == f
  {
    ExtractorsAreDivMod(f);
    var b, p, fs := Recompose(f);
    MakeIsSum(b, p, fs);
  }
}
