/** Boarding passes: a seat written as ten letters, seven `F`/`B` halvings of
    the rows and three `L`/`R` halvings of the columns, which together spell
    the seat id in binary; and the search for the one id missing from a
    sorted list of ids.
 */
module Seats {
  import opened Text

  //----------------------------------------------------------------------
  // Reading letters as binary
  //----------------------------------------------------------------------

  predicate IsRowLetter(c: char)
  {
    c == 'F' || c == 'B'
  }

  predicate IsColumnLetter(c: char)
  {
    c == 'L' || c == 'R'
  }

  /** The letters that `seat_id` accepts: seven row letters, then column
      letters. Past the third column letter only `L` may follow: an `R`
      there would shift by a negative amount, while an `L` adds nothing.
      Any other letter is `unreachable!`. */
  predicate WellFormed(pass: string)
  {
    && 7 <= |pass|
    && (forall i :: 0 <= i < 7 ==> IsRowLetter(pass[i]))
    && (forall i :: 7 <= i < |pass| ==> IsColumnLetter(pass[i]))
    && (forall i :: 10 <= i < |pass| ==> pass[i] == 'L')
  }

  /** The first `n` letters of `s`, or all of them when there are fewer. */
  function Take(s: string, n: nat): (t: string)
    ensures |t| == (if |s| <= n then |s| else n)
    ensures t == s[..|t|]
  {
    if |s| <= n then s else s[..n]
  }

  /** `B` (back) and `R` (right) are the one bits. */
  function Bit(c: char): nat
  {
    if c == 'B' || c == 'R' then 1 else 0
  }

  function Pow2(n: nat): (p: nat)
    ensures p >= 1
  {
    if n == 0 then 1 else 2 * Pow2(n - 1)
  }

  /** The letters read as a binary number, most significant letter first. */
  function BinaryValue(s: string): (v: nat)
    ensures v < Pow2(|s|)
  {
    if |s| == 0 then 0
    else 2 * BinaryValue(s[..|s| - 1]) + Bit(s[|s| - 1])
  }

  /** Reading `a` then `b` shifts `a` left by the length of `b`. */
  lemma {:induction false} BinaryValueAppend(a: string, b: string)
    ensures BinaryValue(a + b) == BinaryValue(a) * Pow2(|b|) + BinaryValue(b)
    decreases |b|
  {
    if |b| == 0 {
      assert a + b == a;
    } else {
      var b' := b[..|b| - 1];
      assert (a + b)[..|a + b| - 1] == a + b';
      BinaryValueAppend(a, b');
      ShiftLeftOne(BinaryValue(a), Pow2(|b'|), BinaryValue(b'), Bit(b[|b| - 1]));
    }
  }

  /** Doubling `x * p + y` and adding a bit. */
  lemma ShiftLeftOne(x: int, p: int, y: int, bit: int)
    ensures 2 * (x * p + y) + bit == x * (2 * p) + (2 * y + bit)
  {
  }

  /** Reading one more letter of `s`, placed so that the number has `width`
      bits in all. */
  lemma ReadOneMore(s: string, i: nat, width: nat)
    requires i < |s| && i < width
    ensures BinaryValue(s[..i + 1]) * Pow2(width - (i + 1))
         == BinaryValue(s[..i]) * Pow2(width - i) + Bit(s[i]) * Pow2(width - (i + 1))
  {
    assert s[..i + 1][..i] == s[..i];
    var p := Pow2(width - (i + 1));
    assert Pow2(width - i) == 2 * p;
    ShiftLeftOne(BinaryValue(s[..i]), p, 0, Bit(s[i]));
    assert (2 * BinaryValue(s[..i]) + Bit(s[i])) * p == BinaryValue(s[..i]) * (2 * p) + Bit(s[i]) * p;
  }

  //----------------------------------------------------------------------
  // Seat ids
  //----------------------------------------------------------------------

  /** The seat id: the first ten letters read as one binary number. Column
      letters that are left off count as `L`, that is as trailing zero bits,
      and the `L`s after the tenth letter are ignored. */
  function Decode(pass: string): nat
    requires WellFormed(pass)
  {
    var lead := Take(pass, 10);
    BinaryValue(lead) * Pow2(10 - |lead|)
  }

  /** One of the two loops of `seat_id`: each one letter at `idx` adds
      `1 << (width - 1 - idx)`, so the letters fill the top bits of a
      `width`-bit number. */
  method ReadBits(letters: string, width: nat) returns (value: nat)
    requires forall i :: width <= i < |letters| ==> Bit(letters[i]) == 0
    ensures value == BinaryValue(Take(letters, width)) * Pow2(width - |Take(letters, width)|)
  {
    value := 0;
    var idx := 0;
    while idx < |letters|
      invariant 0 <= idx <= |letters|
      invariant var read := if idx <= width then idx else width;
                value == BinaryValue(letters[..read]) * Pow2(width - read)
    {
      if idx < width {
        ReadOneMore(letters, idx, width);
      }
      if Bit(letters[idx]) == 1 {
        value := value + Pow2(width - 1 - idx);
      }
      idx := idx + 1;
    }
  }

  /** `seat_id`: the row from the first seven letters, each `B` adding
      `1 << (6 - idx)`, and the column from the rest, each `R` adding
      `1 << (2 - idx)`; the id is `row * 8 + col`. */
  method SeatId(pass: string) returns (id: int)
    requires WellFormed(pass)
    ensures id == Decode(pass)
    ensures id / 8 == BinaryValue(pass[..7]) < 128
    ensures var lead := Take(pass, 10);
            id % 8 == BinaryValue(lead[7..]) * Pow2(10 - |lead|) < 8
    ensures 0 <= id < 1024
  {
    var lead := Take(pass, 10);
    var row := ReadBits(pass[..7], 7);
    assert Take(pass[..7], 7) == pass[..7];
    var col := ReadBits(pass[7..], 3);
    assert Take(pass[7..], 3) == lead[7..];
    id := row * 8 + col;
    RowAndColumn(pass);
    SeatIdDigits(row, col);
  }

  /** The first ten letters read as binary are the row followed by the
      column. */
  lemma RowAndColumn(pass: string)
    requires WellFormed(pass)
    ensures var lead := Take(pass, 10);
            && BinaryValue(lead[7..]) * Pow2(10 - |lead|) < 8
            && Decode(pass) == BinaryValue(pass[..7]) * 8 + BinaryValue(lead[7..]) * Pow2(10 - |lead|)
  {
    var lead := Take(pass, 10);
    var row, tail := lead[..7], lead[7..];
    assert row == pass[..7];
    assert row + tail == lead;
    BinaryValueAppend(row, tail);
    var r, c, n := BinaryValue(row), BinaryValue(tail), |tail|;
    assert 10 - |lead| == 3 - n;
    ColumnBits(BinaryValue(lead), r, c, n);
  }

  /** Up to three column bits, padded with zero bits to three. */
  lemma ColumnBits(whole: nat, row: nat, col: nat, n: nat)
    requires n <= 3 && col < Pow2(n) && whole == row * Pow2(n) + col
    ensures whole * Pow2(3 - n) == row * 8 + col * Pow2(3 - n)
    ensures col * Pow2(3 - n) < 8
  {
    assert Pow2(0) == 1 && Pow2(1) == 2 && Pow2(2) == 4 && Pow2(3) == 8;
    if n == 0 {
    } else if n == 1 {
    } else if n == 2 {
    }
  }

  lemma SeatIdDigits(row: nat, col: nat)
    requires col < 8
    ensures (row * 8 + col) / 8 == row && (row * 8 + col) % 8 == col
  {
  }

  //----------------------------------------------------------------------
  // Writing seat ids
  //----------------------------------------------------------------------

  /** The lowest `width` bits of `n`, most significant first, spelt with
      `zero` and `one`. */
  function Letters(n: nat, width: nat, zero: char, one: char): (s: string)
    ensures |s| == width
    ensures forall i :: 0 <= i < width ==> s[i] == zero || s[i] == one
  {
    if width == 0 then ""
    else Letters(n / 2, width - 1, zero, one) + [if n % 2 == 1 then one else zero]
  }

  /** The ten-letter pass of a seat id. */
  function BoardingPass(id: nat): (pass: string)
    requires id < 1024
    ensures |pass| == 10 && WellFormed(pass)
  {
    Letters(id / 8, 7, 'F', 'B') + Letters(id % 8, 3, 'L', 'R')
  }

  lemma {:induction false} LettersValue(n: nat, width: nat, zero: char, one: char)
    requires Bit(zero) == 0 && Bit(one) == 1 && n < Pow2(width)
    ensures BinaryValue(Letters(n, width, zero, one)) == n
    decreases width
  {
    if width > 0 {
      var s := Letters(n, width, zero, one);
      assert s[..width - 1] == Letters(n / 2, width - 1, zero, one);
      LettersValue(n / 2, width - 1, zero, one);
    }
  }

  /** Decoding the pass of a seat id gives the id back. */
  lemma DecodeBoardingPass(id: nat)
    requires id < 1024
    ensures Decode(BoardingPass(id)) == id
  {
    var row, col := Letters(id / 8, 7, 'F', 'B'), Letters(id % 8, 3, 'L', 'R');
    LettersValue(id / 8, 7, 'F', 'B');
    LettersValue(id % 8, 3, 'L', 'R');
    BinaryValueAppend(row, col);
  }

  lemma {:induction false} LettersOfValue(s: string, zero: char, one: char)
    requires Bit(zero) == 0 && Bit(one) == 1
    requires forall i :: 0 <= i < |s| ==> s[i] == zero || s[i] == one
    ensures Letters(BinaryValue(s), |s|, zero, one) == s
    decreases |s|
  {
    if |s| > 0 {
      var init := s[..|s| - 1];
      LettersOfValue(init, zero, one);
      HalveBits(BinaryValue(s), BinaryValue(init), Bit(s[|s| - 1]));
    }
  }

  lemma HalveBits(v: nat, high: nat, low: nat)
    requires low < 2 && v == 2 * high + low
    ensures v / 2 == high && v % 2 == low
  {
  }

  /** A full ten-letter pass is the pass of its own id. */
  lemma BoardingPassOfDecode(pass: string)
    requires WellFormed(pass) && |pass| == 10
    ensures BoardingPass(Decode(pass)) == pass
  {
    var row, col := pass[..7], pass[7..];
    assert row + col == pass;
    BinaryValueAppend(row, col);
    var id := Decode(pass);
    assert id == BinaryValue(row) * 8 + BinaryValue(col);
    SeatIdDigits(BinaryValue(row), BinaryValue(col));
    LettersOfValue(row, 'F', 'B');
    LettersOfValue(col, 'L', 'R');
  }

  /** Different ten-letter passes have different seat ids. */
  lemma DecodeInjective(a: string, b: string)
    requires WellFormed(a) && |a| == 10 && WellFormed(b) && |b| == 10
    requires Decode(a) == Decode(b)
    ensures a == b
  {
    BoardingPassOfDecode(a);
    BoardingPassOfDecode(b);
  }

  /** An `L` appended to a pass never changes its id: before the tenth
      letter it is the zero bit a missing letter stands for, after it the
      letter is ignored. */
  lemma AppendLKeepsId(pass: string)
    requires WellFormed(pass)
    ensures WellFormed(pass + "L")
    ensures Decode(pass + "L") == Decode(pass)
  {
    var longer := pass + "L";
    assert forall i :: 0 <= i < |pass| ==> longer[i] == pass[i];
    if |pass| >= 10 {
      assert Take(longer, 10) == Take(pass, 10);
    } else {
      PadWithZeroBit(pass, "L");
    }
  }

  /** One more zero bit, with one less bit of padding, keeps the value. */
  lemma PadWithZeroBit(s: string, zero: string)
    requires |s| < 10 && |zero| == 1 && Bit(zero[0]) == 0
    ensures BinaryValue(s + zero) * Pow2(10 - |s| - 1) == BinaryValue(s) * Pow2(10 - |s|)
  {
    var v := BinaryValue(s);
    BinaryValueAppend(s, zero);
    assert Pow2(1) == 2;
    assert BinaryValue(zero) == 0 by { assert zero[..0] == ""; }
    assert BinaryValue(s + zero) == v * 2;
    var p := Pow2(10 - |s| - 1);
    assert Pow2(10 - |s|) == 2 * p;
    DoubleOnEitherSide(v, p);
  }

  lemma DoubleOnEitherSide(v: int, p: int)
    ensures (v * 2) * p == v * (2 * p)
  {
  }

  /** Passes longer than ten letters, padded with `L`. */
  lemma TrailingLExamples()
    ensures WellFormed("FFFFFFFLLLL") && Decode("FFFFFFFLLLL") == 0
    ensures WellFormed("BFFFBBFRRRL") && Decode("BFFFBBFRRRL") == 567
  {
    FrontSeatPadded();
    ExampleSeatPadded();
  }

  lemma FrontSeatPadded()
    ensures WellFormed("FFFFFFFLLLL") && Decode("FFFFFFFLLLL") == 0
  {
    var pass := "FFFFFFFLLL";
    BinaryExample(pass);
    AppendLKeepsId(pass);
    assert pass + "L" == "FFFFFFFLLLL";
  }

  lemma ExampleSeatPadded()
    ensures WellFormed("BFFFBBFRRRL") && Decode("BFFFBBFRRRL") == 567
  {
    var pass := "BFFFBBFRRR";
    BinaryExample(pass);
    AppendLKeepsId(pass);
    assert pass + "L" == "BFFFBBFRRRL";
  }

  /** The unit test's examples. */
  lemma DecodeExamples()
    ensures Decode("BFFFBBFRRR") == 567
    ensures Decode("FFFBBBFRRR") == 119
    ensures Decode("BBFFBBFRLL") == 820
  {
    BinaryExample("BFFFBBFRRR");
    BinaryExample("FFFBBBFRRR");
    BinaryExample("BBFFBBFRLL");
  }

  /** A ten-letter pass, read letter by letter. */
  lemma BinaryExample(s: string)
    requires |s| == 10
    ensures BinaryValue(s) ==
              512 * Bit(s[0]) + 256 * Bit(s[1]) + 128 * Bit(s[2]) + 64 * Bit(s[3]) + 32 * Bit(s[4])
              + 16 * Bit(s[5]) + 8 * Bit(s[6]) + 4 * Bit(s[7]) + 2 * Bit(s[8]) + Bit(s[9])
  {
    assert s[..0] == [];
    PrefixStep(s, 1);
    PrefixStep(s, 2);
    PrefixStep(s, 3);
    PrefixStep(s, 4);
    PrefixStep(s, 5);
    PrefixStep(s, 6);
    PrefixStep(s, 7);
    PrefixStep(s, 8);
    PrefixStep(s, 9);
    PrefixStep(s, 10);
    assert s[..10] == s;
  }

  lemma PrefixStep(s: string, k: nat)
    requires 0 < k <= |s|
    ensures BinaryValue(s[..k]) == 2 * BinaryValue(s[..k - 1]) + Bit(s[k - 1])
  {
    assert s[..k][..k - 1] == s[..k - 1];
  }

  //----------------------------------------------------------------------
  // The missing seat
  //----------------------------------------------------------------------

  /** The first `n` ids count up by one from the first. */
  predicate ConsecutiveUpTo(sorted: seq<int>, n: nat)
    requires 0 < |sorted| && n <= |sorted|
  {
    forall i :: 0 <= i < n ==> sorted[i] == sorted[0] + i
  }

  /** The search in `main`: walk the sorted ids and report `first + idx` at
      the first index whose id is not `first + idx`. */
  method FindMissingSeat(sorted: seq<int>) returns (gap: Option<int>)
    requires |sorted| > 0
    ensures gap.None? <==> ConsecutiveUpTo(sorted, |sorted|)
    ensures gap.Some? ==>
              exists idx :: 0 < idx < |sorted|
                && gap.value == sorted[0] + idx
                && sorted[idx] != gap.value
                && ConsecutiveUpTo(sorted, idx)
  {
    var first := sorted[0];
    var idx := 0;
    while idx < |sorted|
      invariant 0 <= idx <= |sorted|
      invariant ConsecutiveUpTo(sorted, idx)
    {
      var maybe := first + idx;
      if maybe == sorted[idx] {
        idx := idx + 1;
        continue;
      }
      return Some(maybe);
    }
    return None;
  }

  predicate StrictlyIncreasing(ids: seq<int>)
  {
    forall i, j :: 0 <= i < j < |ids| ==> ids[i] < ids[j]
  }

  /** In a list of distinct sorted ids, the reported seat is free, the seat
      before it is taken, and a later seat is taken too: it lies strictly
      between the first and the last id. */
  lemma GapIsFreeSeat(sorted: seq<int>, idx: nat)
    requires 0 < idx < |sorted| && StrictlyIncreasing(sorted)
    requires ConsecutiveUpTo(sorted, idx) && sorted[idx] != sorted[0] + idx
    ensures sorted[0] + idx !in sorted
    ensures sorted[0] + idx - 1 in sorted
    ensures sorted[0] < sorted[0] + idx < sorted[idx] <= sorted[|sorted| - 1]
  {
    var gap := sorted[0] + idx;
    assert sorted[idx - 1] == gap - 1;
    assert sorted[idx] > gap;
    forall j | 0 <= j < |sorted|
      ensures sorted[j] != gap
    {
      if j < idx {
        assert sorted[j] == sorted[0] + j;
      } else if j > idx {
        assert sorted[j] > sorted[idx];
      }
    }
  }
}
