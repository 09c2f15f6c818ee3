/** The raster layout shared by the image code of yanconv.cpp: an image is
    a flat byte vector whose rows of `r` bytes lie end to end, row `y`
    starting at `y * r`. `Start(r, y)` is that offset, written as a
    repeated sum so that proofs about it stay linear. */
module Raster {
  import opened Bytes

  /** Rows laid end to end. */
  function Flatten(rows: seq<seq<byte>>): seq<byte> {
    if rows == [] then [] else Flatten(rows[..|rows| - 1]) + rows[|rows| - 1]
  }

  /** Where block `y` starts when every block holds `m` bytes. */
  function Start(m: nat, y: nat): nat {
    if y == 0 then 0 else Start(m, y - 1) + m
  }

  /** Every block holds `m` bytes. */
  predicate Uniform(blocks: seq<seq<byte>>, m: nat) {
    forall i :: 0 <= i < |blocks| ==> |blocks[i]| == m
  }

  lemma {:induction false} FlattenLength(blocks: seq<seq<byte>>, m: nat)
    requires Uniform(blocks, m)
    ensures |Flatten(blocks)| == Start(m, |blocks|)
    decreases |blocks|
  {
    if blocks != [] {
      FlattenLength(blocks[..|blocks| - 1], m);
    }
  }

  /** Byte `j` of block `y` sits at `Start(m, y) + j`. */
  lemma {:induction false} FlattenIndex(blocks: seq<seq<byte>>, m: nat, y: nat, j: nat)
    requires Uniform(blocks, m) && y < |blocks| && j < m
    ensures Start(m, y) + j < |Flatten(blocks)|
    ensures Flatten(blocks)[Start(m, y) + j] == blocks[y][j]
    decreases |blocks|
  {
    var front := blocks[..|blocks| - 1];
    FlattenLength(front, m);
    if y < |blocks| - 1 {
      FlattenIndex(front, m, y, j);
    }
  }

  /** A byte inside block `i` lies inside the first `n` blocks. */
  lemma {:induction false} StartWithin(m: nat, i: nat, j: nat, n: nat)
    requires i < n && j < m
    ensures Start(m, i) + j < Start(m, n)
    decreases n
  {
    if i < n - 1 {
      StartWithin(m, i, j, n - 1);
    }
  }

  /** `o` holds byte `j` of block `i` at `Start(m, i) + j`. */
  predicate Laid(o: seq<byte>, blocks: seq<seq<byte>>, m: nat) {
    |o| == Start(m, |blocks|) && Uniform(blocks, m) &&
    forall i, j :: 0 <= i < |blocks| && 0 <= j < m && Start(m, i) + j < |o| ==>
      o[Start(m, i) + j] == blocks[i][j]
  }

  /** Blocks of equal length laid end to end are laid out by `Start`. */
  lemma FlattenLaid(blocks: seq<seq<byte>>, m: nat)
    requires Uniform(blocks, m)
    ensures Laid(Flatten(blocks), blocks, m)
  {
    FlattenLength(blocks, m);
    forall i, j | 0 <= i < |blocks| && 0 <= j < m && Start(m, i) + j < |Flatten(blocks)|
      ensures Flatten(blocks)[Start(m, i) + j] == blocks[i][j]
    {
      FlattenIndex(blocks, m, i, j);
    }
  }

  /** Where a laid-out stream holds a byte of a block. */
  lemma LaidAt(o: seq<byte>, blocks: seq<seq<byte>>, m: nat, i: nat, j: nat)
    requires Laid(o, blocks, m) && i < |blocks| && j < m
    ensures Start(m, i) + j < |o| && o[Start(m, i) + j] == blocks[i][j]
  {
    StartWithin(m, i, j, |blocks|);
  }

  /** One more row extends the flattened prefix of the image. */
  lemma FlattenNext(img: seq<seq<byte>>, y: nat)
    requires y < |img|
    ensures Flatten(img[..y]) + img[y][..|img[y]|] == Flatten(img[..y + 1])
  {
    assert img[..y + 1][..y] == img[..y];
    assert img[y][..|img[y]|] == img[y];
  }

  /** `Start` is the product the source computes. */
  lemma {:induction false} StartIsProduct(m: nat, y: nat)
    ensures Start(m, y) == y * m
    decreases y
  {
    if y > 0 {
      StartIsProduct(m, y - 1);
    }
  }

  /** Later rows start later. */
  lemma {:induction false} StartMonotone(m: nat, a: nat, b: nat)
    requires a <= b
    ensures Start(m, a) <= Start(m, b)
    decreases b
  {
    if a < b {
      StartMonotone(m, a, b - 1);
    }
  }

  /** Line `y` of a raster whose lines hold `r` bytes each. */
  function Line(s: seq<byte>, r: nat, y: nat): (row: seq<byte>)
    requires Start(r, y + 1) <= |s|
    ensures |row| == r
  {
    s[Start(r, y)..Start(r, y) + r]
  }

  /** The first `h` lines of a raster. */
  function Lines(s: seq<byte>, r: nat, h: nat): (rows: seq<seq<byte>>)
    requires Start(r, h) <= |s|
    ensures |rows| == h
    decreases h
  {
    if h == 0 then [] else Lines(s, r, h - 1) + [Line(s, r, h - 1)]
  }

  /** The rows are the raster's rows, all of `r` bytes. */
  lemma {:induction false} LinesAre(s: seq<byte>, r: nat, h: nat)
    requires Start(r, h) <= |s|
    ensures Uniform(Lines(s, r, h), r)
    ensures forall y :: 0 <= y < h ==> Start(r, y) + r <= |s| && Lines(s, r, h)[y] == Line(s, r, y)
    decreases h
  {
    if h > 0 {
      LinesAre(s, r, h - 1);
      forall y | 0 <= y < h
        ensures Start(r, y) + r <= |s|
      {
        StartMonotone(r, y + 1, h);
      }
    }
  }

  /** Laying the rows end to end gives the raster back. */
  lemma {:induction false} FlattenLines(s: seq<byte>, r: nat, h: nat)
    requires Start(r, h) <= |s|
    ensures Flatten(Lines(s, r, h)) == s[..Start(r, h)]
    decreases h
  {
    if h > 0 {
      var rows := Lines(s, r, h);
      assert rows[..h - 1] == Lines(s, r, h - 1);
      FlattenLines(s, r, h - 1);
      assert s[..Start(r, h - 1)] + s[Start(r, h - 1)..Start(r, h)] == s[..Start(r, h)];
    }
  }

  /** Cutting rows laid end to end into rows gives them back. */
  lemma {:induction false} LinesFlatten(rows: seq<seq<byte>>, r: nat)
    requires Uniform(rows, r)
    ensures Start(r, |rows|) <= |Flatten(rows)|
    ensures Lines(Flatten(rows), r, |rows|) == rows
    decreases |rows|
  {
    FlattenLength(rows, r);
    if rows != [] {
      var n := |rows|;
      var front := rows[..n - 1];
      var s := Flatten(rows);
      FlattenLength(front, r);
      LinesFlatten(front, r);
      assert s == Flatten(front) + rows[n - 1];
      assert Line(s, r, n - 1) == rows[n - 1];
      LinesPrefix(Flatten(front), rows[n - 1], r, n - 1);
      assert rows == front + [rows[n - 1]];
    }
  }

  /** Bytes appended after the first `h` rows do not change them. */
  lemma {:induction false} LinesPrefix(s: seq<byte>, t: seq<byte>, r: nat, h: nat)
    requires Start(r, h) <= |s|
    ensures Lines(s + t, r, h) == Lines(s, r, h)
    decreases h
  {
    if h > 0 {
      StartMonotone(r, h - 1, h);
      LinesPrefix(s, t, r, h - 1);
      assert Line(s + t, r, h - 1) == Line(s, r, h - 1);
    }
  }
}
