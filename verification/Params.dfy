/**
 The parameters of a build (src/params.rs): what the other modules prove of the algorithms holds for
 all of them at once, and so for each of the ten variants.
 */
module Params {
  /** One term of the polynomial that y^t folds to: y^offset, or z y^offset. */
  datatype Fold = Fold(offset: nat, byZ: bool)

  /** moves tells the variants whose names end in f: they move columns in key generation. */
  datatype Build = Build(gfbits: nat, n: nat, t: nat, folds: seq<Fold>, moves: bool)

  /**
   The builds: a field of 2^12 or 2^13 elements, t errors, and a code length n, in whole bytes,
   that leaves room for the gfbits * t bits of a syndrome, and for 32 more if columns are moved.
   */
  predicate IsBuild(b: Build)
  {
    (b.gfbits == 12 || b.gfbits == 13) && 2 <= b.t <= 128 && b.n % 8 == 0 && Rows(b) <= b.n <= 8192
    && (b.gfbits == 12 ==> b.n <= 4096)
    && (b.moves ==> b.t > 2 && Rows(b) + 32 <= b.n)
    && forall i :: 0 <= i < |b.folds| ==> b.folds[i].offset < b.t
  }

  /** gfbits * t, the number of rows of the public key. */
  function Rows(b: Build): nat
  {
    if b.gfbits == 12 then 12 * b.t else 13 * b.t
  }

  type ValidBuild = b: Build | IsBuild(b) witness Build(13, 8192, 128, [], false)

  /** The five variants that move columns, or the five that do not. */
  function Variants(moves: bool): seq<Build>
  {
    [Build(12, 3488, 64, [Fold(3, false), Fold(1, false), Fold(0, true)], moves),
     Build(13, 4608, 96, [Fold(10, false), Fold(9, false), Fold(6, false), Fold(0, false)], moves),
     Build(13, 6688, 128, [Fold(7, false), Fold(2, false), Fold(1, false), Fold(0, false)], moves),
     Build(13, 6960, 119, [Fold(8, false), Fold(0, false)], moves),
     Build(13, 8192, 128, [Fold(7, false), Fold(2, false), Fold(1, false), Fold(0, false)], moves)]
  }

  /** b is one of the ten variants of the scheme. */
  predicate IsVariant(b: Build)
  {
    b in Variants(true) || b in Variants(false)
  }

  /** Every variant is a build. */
  lemma VariantsAreBuilds(b: Build)
    requires IsVariant(b)
    ensures IsBuild(b)
  {
  }

  const BUILD: ValidBuild
  const GFBITS: nat := BUILD.gfbits
  const SYS_N: nat := BUILD.n
  const SYS_T: nat := BUILD.t
  const MOVES: bool := BUILD.moves
  const PK_NROWS: nat := Rows(BUILD)
  const PK_ROW_BYTES: nat := (SYS_N - PK_NROWS + 7) / 8
  const SYND_BYTES: nat := (PK_NROWS + 7) / 8
  const IRR_BYTES: nat := 2 * SYS_T
}
