/**
 * Byte strings and the three byte-level operations the fragment protocol is
 * built from: NUL padding and stripping (`b"\0" * n`, `bytes.strip(b"\0")`),
 * concatenation of fragments (`b"".join(...)`) and the row/column
 * transposition `[bytes(x) for x in zip(*rows)]`.
 */
module ByteRows {

  newtype byte = b: int | 0 <= b < 256

  type Bytes = seq<byte>

  /** `b"\0" * n` */
  function Zeros(n: nat): (z: Bytes)
    ensures |z| == n
    ensures forall i :: 0 <= i < n ==> z[i] == 0
  {
    seq(n, _ => 0 as byte)
  }

  lemma ZerosAdd(a: nat, b: nat)
    ensures Zeros(a) + Zeros(b) == Zeros(a + b)
  {
  }

  // ---------------------------------------------------------------------
  // Stripping NUL bytes

  /** `s.lstrip(b"\0")` */
  function LStrip(s: Bytes): (r: Bytes)
    ensures |r| <= |s| && r == s[|s| - |r|..]
    ensures r == [] || r[0] != 0
    ensures forall i :: 0 <= i < |s| - |r| ==> s[i] == 0
    decreases |s|
  {
    if |s| > 0 && s[0] == 0 then LStrip(s[1..]) else s
  }

  /** `s.rstrip(b"\0")` */
  function RStrip(s: Bytes): (r: Bytes)
    ensures |r| <= |s| && r == s[..|r|]
    ensures r == [] || r[|r| - 1] != 0
    ensures forall i :: |r| <= i < |s| ==> s[i] == 0
    decreases |s|
  {
    if |s| > 0 && s[|s| - 1] == 0 then RStrip(s[..|s| - 1]) else s
  }

  /** `s.strip(b"\0")`: NULs removed from both ends, nothing else touched. */
  function StripNul(s: Bytes): (r: Bytes)
    ensures |r| <= |LStrip(s)| <= |s|
    ensures var a := |s| - |LStrip(s)|;
      && r == s[a..a + |r|]
      && (forall i :: 0 <= i < a ==> s[i] == 0)
      && (forall i :: a + |r| <= i < |s| ==> s[i] == 0)
    ensures r == [] || (r[0] != 0 && r[|r| - 1] != 0)
  {
    RStrip(LStrip(s))
  }

  lemma {:induction false} RStripZeros(s: Bytes, k: nat)
    ensures RStrip(s + Zeros(k)) == RStrip(s)
  {
    if k == 0 {
      assert s + Zeros(0) == s;
    } else {
      var t := s + Zeros(k);
      assert t[|t| - 1] == 0;
      assert t[..|t| - 1] == s + Zeros(k - 1);
      RStripZeros(s, k - 1);
    }
  }

  lemma {:induction false} LStripAllZeros(k: nat)
    ensures LStrip(Zeros(k)) == []
  {
    if k > 0 {
      assert Zeros(k)[1..] == Zeros(k - 1);
      LStripAllZeros(k - 1);
    }
  }

  lemma {:induction false} LStripZeros(s: Bytes, k: nat)
    ensures LStrip(s + Zeros(k)) == if LStrip(s) == [] then [] else LStrip(s) + Zeros(k)
    decreases |s|
  {
    if |s| == 0 {
      assert s + Zeros(k) == Zeros(k);
      LStripAllZeros(k);
    } else if s[0] == 0 {
      assert (s + Zeros(k))[1..] == s[1..] + Zeros(k);
      LStripZeros(s[1..], k);
    }
  }

  /** Trailing NUL padding never changes what `strip(b"\0")` returns. */
  lemma StripNulPadding(s: Bytes, k: nat)
    ensures StripNul(s + Zeros(k)) == StripNul(s)
  {
    LStripZeros(s, k);
    if LStrip(s) != [] {
      RStripZeros(LStrip(s), k);
    }
  }

  // ---------------------------------------------------------------------
  // Joining fragments

  /** `b"".join(rows)`, and `"".join(rows)` for text */
  function Join<T>(rows: seq<seq<T>>): (r: seq<T>)
    decreases |rows|
  {
    if rows == [] then [] else rows[0] + Join(rows[1..])
  }

  lemma {:induction false} JoinAppend<T>(a: seq<seq<T>>, b: seq<seq<T>>)
    ensures Join(a + b) == Join(a) + Join(b)
    decreases |a|
  {
    if a == [] {
      assert a + b == b;
    } else {
      assert (a + b)[1..] == a[1..] + b;
      JoinAppend(a[1..], b);
    }
  }

  /** Every row has length `width`. */
  predicate Uniform(rows: seq<Bytes>, width: nat) {
    forall i :: 0 <= i < |rows| ==> |rows[i]| == width
  }

  lemma {:induction false} JoinUniformLength(rows: seq<Bytes>, width: nat)
    requires Uniform(rows, width)
    ensures |Join(rows)| == |rows| * width
    decreases |rows|
  {
    if rows != [] {
      JoinUniformLength(rows[1..], width);
      assert |rows| * width == width + (|rows| - 1) * width;
    }
  }

  // ---------------------------------------------------------------------
  // Transposition: `[bytes(x) for x in zip(*rows)]`

  function MinLength(rows: seq<Bytes>): (m: nat)
    requires |rows| > 0
    ensures forall i :: 0 <= i < |rows| ==> m <= |rows[i]|
    ensures exists i :: 0 <= i < |rows| && m == |rows[i]|
    decreases |rows|
  {
    if |rows| == 1 then |rows[0]|
    else
      var tail := MinLength(rows[1..]);
      assert forall i :: 1 <= i < |rows| ==> rows[i] == rows[1..][i - 1];
      if |rows[0]| <= tail then |rows[0]| else tail
  }

  /** The `j`-th byte of every row. */
  function Column(rows: seq<Bytes>, j: nat): (col: Bytes)
    requires forall i :: 0 <= i < |rows| ==> j < |rows[i]|
    ensures |col| == |rows|
    ensures forall i :: 0 <= i < |rows| ==> col[i] == rows[i][j]
  {
    seq(|rows|, i requires 0 <= i < |rows| => rows[i][j])
  }

  /**
   * `[bytes(x) for x in zip(*rows)]`: the `j`-th result holds the `j`-th byte
   * of every row, in row order; `zip` stops at the shortest row and yields
   * nothing for no rows at all.
   */
  function Zip(rows: seq<Bytes>): (cols: seq<Bytes>)
    ensures rows == [] ==> cols == []
    ensures rows != [] ==> |cols| == MinLength(rows)
    ensures forall j :: 0 <= j < |cols| ==> |cols[j]| == |rows|
    ensures forall j, i :: 0 <= j < |cols| && 0 <= i < |rows| ==> j < |rows[i]| && cols[j][i] == rows[i][j]
  {
    if rows == [] then []
    else
      var m := MinLength(rows);
      seq(m, j requires 0 <= j < m => Column(rows, j))
  }

  lemma MinLengthUniform(rows: seq<Bytes>, width: nat)
    requires |rows| > 0 && Uniform(rows, width)
    ensures MinLength(rows) == width
  {
  }

  /** Transposing a non-empty matrix of `|rows|` rows of `width > 0` bytes. */
  lemma ZipShape(rows: seq<Bytes>, width: nat)
    requires |rows| > 0 && width > 0 && Uniform(rows, width)
    ensures |Zip(rows)| == width && Uniform(Zip(rows), |rows|)
  {
    MinLengthUniform(rows, width);
  }

  /** Transposing twice is the identity on a non-empty matrix of equal-length, non-empty rows. */
  lemma ZipZip(rows: seq<Bytes>, width: nat)
    requires |rows| > 0 && width > 0 && Uniform(rows, width)
    ensures Zip(Zip(rows)) == rows
  {
    var cols := Zip(rows);
    ZipShape(rows, width);
    MinLengthUniform(cols, |rows|);
    var back := Zip(cols);
    assert |back| == |rows|;
    forall i | 0 <= i < |rows|
      ensures back[i] == rows[i]
    {
      assert |back[i]| == width;
      forall j | 0 <= j < width
        ensures back[i][j] == rows[i][j]
      {
        assert back[i][j] == cols[j][i];
      }
    }
  }
}
