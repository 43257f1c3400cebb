/** The Verhoeff check digit (class `Verhoeff` of matter.ts): a checksum over
    the dihedral group D5, with the group's multiplication table `d`, eight
    position-dependent permutations `p` and the table of inverses `inv`. */
module Verhoeff {
  import opened Decimal

  /** A row of ten table entries, each a digit 0..9. Because every entry of
      the three tables has this type, the accumulator of the checksum loop and
      every index it uses stay in 0..9. */
  type Row = s: seq<Digit> | |s| == 10 witness [0, 0, 0, 0, 0, 0, 0, 0, 0, 0]

  /** `Verhoeff.d`: the multiplication table of D5. */
  const D: seq<Row> := [
    [0, 1, 2, 3, 4, 5, 6, 7, 8, 9],
    [1, 2, 3, 4, 0, 6, 7, 8, 9, 5],
    [2, 3, 4, 0, 1, 7, 8, 9, 5, 6],
    [3, 4, 0, 1, 2, 8, 9, 5, 6, 7],
    [4, 0, 1, 2, 3, 9, 5, 6, 7, 8],
    [5, 9, 8, 7, 6, 0, 4, 3, 2, 1],
    [6, 5, 9, 8, 7, 1, 0, 4, 3, 2],
    [7, 6, 5, 9, 8, 2, 1, 0, 4, 3],
    [8, 7, 6, 5, 9, 3, 2, 1, 0, 4],
    [9, 8, 7, 6, 5, 4, 3, 2, 1, 0]
  ]

  /** `Verhoeff.p`: the permutation applied to a digit, by position mod 8. */
  const P: seq<Row> := [
    [0, 1, 2, 3, 4, 5, 6, 7, 8, 9],
    [1, 5, 7, 6, 2, 8, 3, 0, 9, 4],
    [5, 8, 0, 3, 7, 9, 6, 1, 4, 2],
    [8, 9, 1, 6, 0, 4, 3, 5, 2, 7],
    [9, 4, 5, 3, 1, 2, 6, 8, 7, 0],
    [4, 2, 8, 6, 5, 7, 3, 9, 0, 1],
    [2, 7, 9, 3, 8, 0, 6, 4, 1, 5],
    [7, 0, 4, 6, 9, 1, 3, 2, 5, 8]
  ]

  /** `Verhoeff.inv`: the inverse of each element of D5. */
  const Inv: Row := [0, 4, 3, 2, 1, 5, 6, 7, 8, 9]

  /** `num.split('').reverse()`. */
  function Reverse<T>(s: seq<T>): (r: seq<T>)
    ensures |r| == |s| && forall i :: 0 <= i < |s| ==> r[i] == s[|s| - 1 - i]
  {
    if s == [] then [] else Reverse(s[1..]) + [s[0]]
  }

  /** One iteration of the checksum loop: the accumulator `c` combined with
      digit `x` standing at position `pos` of the reversed input. */
  function Step(c: Digit, pos: nat, x: Digit): (acc: Digit) {
    D[c][P[pos % 8][x]]
  }

  /** The accumulator after the loop has run over the reversed digits `rev`,
      starting from `c`, with `rev[0]` at position `pos`. */
  function Fold(c: Digit, rev: string, pos: nat): (acc: Digit)
    requires AllDigits(rev)
    decreases |rev|
  {
    if rev == [] then c else Fold(Step(c, pos, DigitValue(rev[0])), rev[1..], pos + 1)
  }

  /** The value `Verhoeff.calcCheckDigit(num)` returns: the loop numbers the
      reversed digits from 1 (`p[(i + 1) % 8]`), starts from 0 and ends by
      looking up the inverse of the accumulator. */
  function CheckDigit(num: string): (ch: char)
    requires AllDigits(num)
    ensures IsDigit(ch)
  {
    DigitChar(Inv[Fold(0, Reverse(num), 1)])
  }

  /** `Verhoeff.calcCheckDigit` as matter.ts computes it: reverse, then one
      table lookup per digit, accumulating in `c`. */
  method CalcCheckDigit(num: string) returns (r: string)
    requires AllDigits(num)
    ensures |r| == 1 && IsDigit(r[0])
    ensures r == [CheckDigit(num)]
  {
    var c: Digit := 0;
    var numReverse := Reverse(num);
    for i := 0 to |numReverse|
      invariant Fold(c, numReverse[i..], i + 1) == Fold(0, numReverse, 1)
    {
      assert numReverse[i..][1..] == numReverse[i + 1..];
      c := D[c][P[(i + 1) % 8][DigitValue(numReverse[i])]];
    }
    r := [DigitChar(Inv[c])];
  }

  /** The Verhoeff test that a digit string ends in its own check digit:
      the same loop with positions numbered from 0, so that the check digit
      itself goes through the identity permutation `p[0]`; the string passes
      when the accumulator ends at the identity element 0. */
  predicate IsValid(code: string)
    requires AllDigits(code)
  {
    Fold(0, Reverse(code), 0) == 0
  }

  // ---------------------------------------------------------------------------
  // The tables

  /** D5 with 0..4 the rotations and 5..9 the reflections, written out by
      cases; `Mod5` reduces the small sums that occur. */
  function Mod5(x: int): (r: int)
    requires -5 < x < 10
  {
    if x < 0 then x + 5 else if x >= 5 then x - 5 else x
  }

  function DihedralMul(a: Digit, b: Digit): (r: Digit) {
    if a < 5 && b < 5 then Mod5(a + b)
    else if a < 5 then 5 + Mod5(a + b - 5)
    else if b < 5 then 5 + Mod5(a - 5 - b)
    else Mod5(a - b)
  }

  /** `d` is the multiplication table of D5. */
  lemma DIsDihedral(a: Digit, b: Digit)
    ensures D[a][b] == DihedralMul(a, b)
  {
    // One case per row, so that each case reads a single row of the table.
    if a < 5 {
      if a == 0 { } else if a == 1 { } else if a == 2 { } else if a == 3 { } else { }
    } else {
      if a == 5 { } else if a == 6 { } else if a == 7 { } else if a == 8 { } else { }
    }
  }

  lemma DihedralAssociative(a: Digit, b: Digit, c: Digit)
    ensures DihedralMul(DihedralMul(a, b), c) == DihedralMul(a, DihedralMul(b, c))
  {
    if b < 5 && c < 5 {
      RotationsCompose(a, b, c);
    } else if b < 5 {
      RotationReflection(a, b, c);
    } else if c < 5 {
      ReflectionRotation(a, b, c);
    } else {
      ReflectionsCompose(a, b, c);
    }
  }

  lemma RotationsCompose(a: Digit, b: Digit, c: Digit)
    requires b < 5 && c < 5
    ensures DihedralMul(DihedralMul(a, b), c) == DihedralMul(a, DihedralMul(b, c))
  {
  }

  lemma RotationReflection(a: Digit, b: Digit, c: Digit)
    requires b < 5 && c >= 5
    ensures DihedralMul(DihedralMul(a, b), c) == DihedralMul(a, DihedralMul(b, c))
  {
  }

  lemma ReflectionRotation(a: Digit, b: Digit, c: Digit)
    requires b >= 5 && c < 5
    ensures DihedralMul(DihedralMul(a, b), c) == DihedralMul(a, DihedralMul(b, c))
  {
  }

  lemma ReflectionsCompose(a: Digit, b: Digit, c: Digit)
    requires b >= 5 && c >= 5
    ensures DihedralMul(DihedralMul(a, b), c) == DihedralMul(a, DihedralMul(b, c))
  {
  }

  /** `d` is associative. */
  lemma DAssociative(a: Digit, b: Digit, c: Digit)
    ensures D[D[a][b]][c] == D[a][D[b][c]]
  {
    DIsDihedral(a, b);
    DIsDihedral(b, c);
    DIsDihedral(D[a][b], c);
    DIsDihedral(a, D[b][c]);
    DihedralAssociative(a, b, c);
  }

  /** 0 is the identity of `d`, and `p[0]` is the identity permutation. */
  lemma Identity(c: Digit)
    ensures D[0][c] == c && D[c][0] == c && P[0][c] == c
  {
  }

  /** `inv[c]` is the inverse of `c` under `d`, on either side. */
  lemma InvIsInverse(c: Digit)
    ensures D[c][Inv[c]] == 0 && D[Inv[c]][c] == 0
  {
  }

  /** `inv` is its own inverse, hence one-to-one. */
  lemma InvInvolution(c: Digit)
    ensures Inv[Inv[c]] == c
  {
  }

  /** Every row of `p` maps digits one-to-one. */
  lemma PRowOneToOne(i: nat, a: Digit, b: Digit)
    requires i < 8 && P[i][a] == P[i][b]
    ensures a == b
  {
    PRowUndone(i, a);
    PRowUndone(i, b);
  }

  /** The inverse permutation of each row of `p`. */
  const PInverse: seq<Row> := [
    [0, 1, 2, 3, 4, 5, 6, 7, 8, 9],
    [7, 0, 4, 6, 9, 1, 3, 2, 5, 8],
    [2, 7, 9, 3, 8, 0, 6, 4, 1, 5],
    [4, 2, 8, 6, 5, 7, 3, 9, 0, 1],
    [9, 4, 5, 3, 1, 2, 6, 8, 7, 0],
    [8, 9, 1, 6, 0, 4, 3, 5, 2, 7],
    [5, 8, 0, 3, 7, 9, 6, 1, 4, 2],
    [1, 5, 7, 6, 2, 8, 3, 0, 9, 4]
  ]

  /** Row i of `PInverse` undoes row i of `p`. */
  lemma PRowUndone(i: nat, a: Digit)
    requires i < 8
    ensures PInverse[i][P[i][a]] == a
  {
  }

  /** Row i of `PInverse` is undone by row i of `p`, so every digit is an
      image under row i: with `PRowOneToOne`, every row of `p` is a
      permutation of 0..9. */
  lemma PRowOnto(i: nat, b: Digit)
    requires i < 8
    ensures P[i][PInverse[i][b]] == b
  {
  }

  /** Row i of `p` is the permutation of row 1 applied i times, and applying
      it eight times gives back row 0, the identity. */
  lemma PRowPowers(i: nat, a: Digit)
    requires 1 <= i <= 8
    ensures P[i % 8][a] == P[1][P[i - 1][a]]
  {
    // One case per digit, so that each case reads a single column of the table.
    if a < 5 {
      if a == 0 { } else if a == 1 { } else if a == 2 { } else if a == 3 { } else { }
    } else {
      if a == 5 { } else if a == 6 { } else if a == 7 { } else if a == 8 { } else { }
    }
  }

  /** The property row 1 of `p` is chosen for: for different u and v,
      `d[u][p1(v)]` differs from `d[v][p1(u)]`. */
  lemma P1Transposition(u: Digit, v: Digit)
    requires u != v
    ensures D[u][P[1][v]] != D[v][P[1][u]]
  {
  }

  /** At any two consecutive positions, two different digits in one order and
      in the other give different products. */
  lemma PTranspositionTable(q: nat, a: Digit, b: Digit)
    requires q < 8 && a != b
    ensures D[P[q][a]][P[(q + 1) % 8][b]] != D[P[q][b]][P[(q + 1) % 8][a]]
  {
    PRowPowers(q + 1, a);
    PRowPowers(q + 1, b);
    if P[q][a] == P[q][b] {
      PRowOneToOne(q, a, b);
    }
    P1Transposition(P[q][a], P[q][b]);
  }

  /** Cancellation on the left: `d[c][a] == d[c][b]` only when a == b. */
  lemma LeftCancel(c: Digit, a: Digit, b: Digit)
    requires D[c][a] == D[c][b]
    ensures a == b
  {
    InvIsInverse(c);
    Identity(a);
    Identity(b);
    DAssociative(Inv[c], c, a);
    DAssociative(Inv[c], c, b);
  }

  /** Cancellation on the right: `d[a][c] == d[b][c]` only when a == b. */
  lemma RightCancel(a: Digit, b: Digit, c: Digit)
    requires D[a][c] == D[b][c]
    ensures a == b
  {
    InvIsInverse(c);
    Identity(a);
    Identity(b);
    DAssociative(a, c, Inv[c]);
    DAssociative(b, c, Inv[c]);
  }

  /** `inv[g]` is the only x with `d[x][g] == 0`. */
  lemma InvUnique(x: Digit, g: Digit)
    ensures D[x][g] == 0 <==> x == Inv[g]
  {
    InvIsInverse(g);
    if D[x][g] == 0 {
      RightCancel(x, Inv[g], g);
    }
  }

  // ---------------------------------------------------------------------------
  // The loop

  lemma {:induction false} ReverseAppend<T>(s: seq<T>, x: T)
    ensures Reverse(s + [x]) == [x] + Reverse(s)
  {
  }

  /** Starting the loop from `c` instead of 0 multiplies the result by `c`
      on the left. */
  lemma {:induction false} FoldFrom(c: Digit, rev: string, pos: nat)
    requires AllDigits(rev)
    ensures Fold(c, rev, pos) == D[c][Fold(0, rev, pos)]
    decreases |rev|
  {
    if rev == [] {
      Identity(c);
    } else {
      var y := P[pos % 8][DigitValue(rev[0])];
      var g := Fold(0, rev[1..], pos + 1);
      Identity(y);
      FoldFrom(D[c][y], rev[1..], pos + 1);
      FoldFrom(y, rev[1..], pos + 1);
      DAssociative(c, y, g);
    }
  }

  /** Two different starting values give two different results. */
  lemma FoldOneToOne(c: Digit, c': Digit, rev: string, pos: nat)
    requires AllDigits(rev) && c != c'
    ensures Fold(c, rev, pos) != Fold(c', rev, pos)
  {
    FoldFrom(c, rev, pos);
    FoldFrom(c', rev, pos);
    if D[c][Fold(0, rev, pos)] == D[c'][Fold(0, rev, pos)] {
      RightCancel(c, c', Fold(0, rev, pos));
    }
  }

  /** Appending the check digit makes the string pass the Verhoeff test, and
      no other digit does. */
  lemma CheckDigitValid(num: string, ch: char)
    requires AllDigits(num) && IsDigit(ch)
    ensures AllDigits(num + [ch])
    ensures IsValid(num + [ch]) <==> ch == CheckDigit(num)
  {
    var rev := Reverse(num);
    var x := DigitValue(ch);
    var g := Fold(0, rev, 1);
    assert AllDigits(num + [ch]) by {
      assert forall i :: 0 <= i < |num| ==> (num + [ch])[i] == num[i];
    }
    ReverseAppend(num, ch);
    assert ([ch] + rev)[1..] == rev;
    Identity(x);
    assert Fold(0, Reverse(num + [ch]), 0) == Fold(x, rev, 1);
    FoldFrom(x, rev, 1);
    InvUnique(x, g);
    DigitCharOfValue(ch);
  }

  /** Changing one digit of the input changes the check digit. */
  lemma {:induction false} FoldSingleChange(c: Digit, xs: string, ys: string, pos: nat, j: nat)
    requires AllDigits(xs) && AllDigits(ys) && |xs| == |ys| && j < |xs|
    requires xs[j] != ys[j]
    requires forall i :: 0 <= i < |xs| && i != j ==> xs[i] == ys[i]
    ensures Fold(c, xs, pos) != Fold(c, ys, pos)
    decreases j
  {
    if j == 0 {
      var a, b := DigitValue(xs[0]), DigitValue(ys[0]);
      assert a != b;
      if P[pos % 8][a] == P[pos % 8][b] {
        PRowOneToOne(pos % 8, a, b);
      }
      if Step(c, pos, a) == Step(c, pos, b) {
        LeftCancel(c, P[pos % 8][a], P[pos % 8][b]);
      }
      assert xs[1..] == ys[1..];
      FoldOneToOne(Step(c, pos, a), Step(c, pos, b), xs[1..], pos + 1);
    } else {
      FoldSingleChange(Step(c, pos, DigitValue(xs[0])), xs[1..], ys[1..], pos + 1, j - 1);
    }
  }

  /** Verhoeff detects every single-digit error: two digit strings of the
      same length that differ in exactly one place have different check
      digits. */
  lemma SingleErrorDetected(s: string, t: string, k: nat)
    requires AllDigits(s) && AllDigits(t) && |s| == |t| && k < |s|
    requires s[k] != t[k]
    requires forall i :: 0 <= i < |s| && i != k ==> s[i] == t[i]
    ensures CheckDigit(s) != CheckDigit(t)
  {
    var rs, rt := Reverse(s), Reverse(t);
    FoldSingleChange(0, rs, rt, 1, |s| - 1 - k);
    InvInvolution(Fold(0, rs, 1));
    InvInvolution(Fold(0, rt, 1));
  }

  /** Swapping two adjacent different digits of the input changes the
      accumulator the loop ends with. */
  lemma {:induction false} FoldTransposition(c: Digit, xs: string, ys: string, pos: nat, j: nat)
    requires AllDigits(xs) && AllDigits(ys) && |xs| == |ys| && j + 1 < |xs|
    requires xs[j] != xs[j + 1] && ys[j] == xs[j + 1] && ys[j + 1] == xs[j]
    requires forall i :: 0 <= i < |xs| && i != j && i != j + 1 ==> xs[i] == ys[i]
    ensures Fold(c, xs, pos) != Fold(c, ys, pos)
    decreases j
  {
    if j == 0 {
      var a, b := DigitValue(xs[0]), DigitValue(xs[1]);
      assert DigitValue(ys[0]) == b && DigitValue(ys[1]) == a;
      StepsTransposed(c, pos, a, b);
      assert xs[2..] == ys[2..];
      assert xs[1..][1..] == xs[2..] && ys[1..][1..] == ys[2..];
      FoldOneToOne(Step(Step(c, pos, a), pos + 1, b), Step(Step(c, pos, b), pos + 1, a), xs[2..], pos + 2);
    } else {
      FoldTransposition(Step(c, pos, DigitValue(xs[0])), xs[1..], ys[1..], pos + 1, j - 1);
    }
  }

  /** Two steps over two different digits end in different states when the
      digits are swapped. */
  lemma StepsTransposed(c: Digit, pos: nat, a: Digit, b: Digit)
    requires a != b
    ensures Step(Step(c, pos, a), pos + 1, b) != Step(Step(c, pos, b), pos + 1, a)
  {
    var q := pos % 8;
    assert (pos + 1) % 8 == (q + 1) % 8;
    var pa, pb' := P[q][a], P[(q + 1) % 8][b];
    var pb, pa' := P[q][b], P[(q + 1) % 8][a];
    DAssociative(c, pa, pb');
    DAssociative(c, pb, pa');
    PTranspositionTable(q, a, b);
    if Step(Step(c, pos, a), pos + 1, b) == Step(Step(c, pos, b), pos + 1, a) {
      LeftCancel(c, D[pa][pb'], D[pb][pa']);
    }
  }

  /** Verhoeff detects every transposition of two adjacent different digits. */
  lemma AdjacentTranspositionDetected(s: string, t: string, k: nat)
    requires AllDigits(s) && AllDigits(t) && |s| == |t| && k + 1 < |s|
    requires s[k] != s[k + 1] && t[k] == s[k + 1] && t[k + 1] == s[k]
    requires forall i :: 0 <= i < |s| && i != k && i != k + 1 ==> s[i] == t[i]
    ensures CheckDigit(s) != CheckDigit(t)
  {
    var rs, rt := Reverse(s), Reverse(t);
    var j := |s| - 2 - k;
    assert rs[j] == s[k + 1] && rs[j + 1] == s[k];
    FoldTransposition(0, rs, rt, 1, j);
    InvInvolution(Fold(0, rs, 1));
    InvInvolution(Fold(0, rt, 1));
  }

  /** Reversing a concatenation reverses the order of the parts. */
  lemma {:induction false} ReverseConcat<T>(a: seq<T>, b: seq<T>)
    ensures Reverse(a + b) == Reverse(b) + Reverse(a)
    decreases |a|
  {
    if a == [] {
      assert a + b == b;
    } else {
      ReverseConcat(a[1..], b);
      assert (a + b)[1..] == a[1..] + b;
    }
  }

  /** The loop of `calcCheckDigit` with any step function in place of `Step`;
      it lets the laws that do not depend on the tables be proved without
      them. */
  function FoldBy(step: (Digit, nat, Digit) -> Digit, c: Digit, rev: string, pos: nat): (acc: Digit)
    requires AllDigits(rev)
    decreases |rev|
  {
    if rev == [] then c else FoldBy(step, step(c, pos, DigitValue(rev[0])), rev[1..], pos + 1)
  }

  /** The checksum loop is the instance of `FoldBy` with `Step`. */
  lemma {:induction false} FoldIsFoldBy(c: Digit, rev: string, pos: nat)
    requires AllDigits(rev)
    ensures Fold(c, rev, pos) == FoldBy(Step, c, rev, pos)
    decreases |rev|
  {
    if rev != [] {
      TailDigits(rev);
      FoldIsFoldBy(Step(c, pos, DigitValue(rev[0])), rev[1..], pos + 1);
    }
  }

  /** A fold over a concatenation runs over the first part, then carries its
      accumulator into the second. */
  lemma {:induction false} FoldByConcat(step: (Digit, nat, Digit) -> Digit, c: Digit, a: string, b: string, pos: nat)
    requires AllDigits(a) && AllDigits(b)
    ensures AllDigits(a + b)
    ensures FoldBy(step, c, a + b, pos) == FoldBy(step, FoldBy(step, c, a, pos), b, pos + |a|)
    decreases |a|
  {
    ConcatDigits(a, b);
    if a == [] {
      assert a + b == b;
    } else {
      assert (a + b)[0] == a[0] && (a + b)[1..] == a[1..] + b;
      TailDigits(a);
      FoldByConcat(step, step(c, pos, DigitValue(a[0])), a[1..], b, pos + 1);
    }
  }

  /** The check digit of the payload of the repository's worked example,
      written as its five fields. */
  lemma CheckDigitExample()
    ensures CheckDigit("7" + "49456" + "0685" + "12340" + "56780") == '7'
  {
    ExampleReverse();
    ExampleFold();
  }

  /** The worked example's payload reversed, field by field. */
  lemma ExampleReverse()
    ensures Reverse("7" + "49456" + "0685" + "12340" + "56780")
            == "08765" + ("04321" + ("5860" + ("65494" + "7")))
  {
    var f1, f2, f3, f4, f5 := "7", "49456", "0685", "12340", "56780";
    ReverseConcat(f1 + f2 + f3 + f4, f5);
    ReverseConcat(f1 + f2 + f3, f4);
    ReverseConcat(f1 + f2, f3);
    ReverseConcat(f1, f2);
    ExampleReversalsLow();
    ExampleReversalsHigh();
  }

  /** The checksum loop over the worked example's reversed payload ends at 7. */
  lemma ExampleFold()
    ensures AllDigits("08765" + ("04321" + ("5860" + ("65494" + "7"))))
    ensures Fold(0, "08765" + ("04321" + ("5860" + ("65494" + "7"))), 1) == 7
  {
    ExampleFoldBy();
    FoldIsFoldBy(0, "08765" + ("04321" + ("5860" + ("65494" + "7"))), 1);
  }

  /** The same, for `FoldBy` with `Step`: the fields are folded one after the
      other, each starting from where the previous one ended. */
  lemma ExampleFoldBy()
    ensures AllDigits("08765" + ("04321" + ("5860" + ("65494" + "7"))))
    ensures FoldBy(Step, 0, "08765" + ("04321" + ("5860" + ("65494" + "7"))), 1) == 7
  {
    var r5, r4, tail := "08765", "04321", "5860" + ("65494" + "7");
    ExampleFoldProductId();
    ExampleFoldVendorId();
    ExampleFoldByTail();
    FoldByConcat(Step, 6, r4, tail, 6);
    FoldByConcat(Step, 0, r5, r4 + tail, 1);
  }

  /** The last three fields: chunk 3, chunk 2 and chunk 1, reversed. */
  lemma ExampleFoldByTail()
    ensures AllDigits("5860" + ("65494" + "7"))
    ensures FoldBy(Step, 2, "5860" + ("65494" + "7"), 11) == 7
  {
    var r3, r2, r1 := "5860", "65494", "7";
    ExampleFoldChunk3();
    ExampleFoldChunk2();
    ExampleFoldChunk1();
    FoldByConcat(Step, 8, r2, r1, 15);
    FoldByConcat(Step, 2, r3, r2 + r1, 11);
  }

  /** The reversed fields of the worked example. */
  lemma ExampleReversalsLow()
    ensures Reverse("7") == "7" && Reverse("49456") == "65494" && Reverse("0685") == "5860"
  {
  }

  lemma ExampleReversalsHigh()
    ensures Reverse("12340") == "04321" && Reverse("56780") == "08765"
  {
  }

  /** The accumulator of the worked example after each reversed field, the
      product id first, computed by `FoldBy` with `Step`. */
  lemma ExampleFoldProductId()
    ensures FoldBy(Step, 0, "08765", 1) == 6
  {
  }

  lemma ExampleFoldVendorId()
    ensures FoldBy(Step, 6, "04321", 6) == 2
  {
  }

  lemma ExampleFoldChunk3()
    ensures FoldBy(Step, 2, "5860", 11) == 8
  {
  }

  lemma ExampleFoldChunk2()
    ensures FoldBy(Step, 8, "65494", 15) == 4
  {
  }

  lemma ExampleFoldChunk1()
    ensures FoldBy(Step, 4, "7", 20) == 7
  {
  }
}
