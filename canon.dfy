/**
 * Why the canonical forms are canonical: the reduced form is characterised
 * by the members of the set alone (the ascending transposition to 0 with the
 * least encoding), so it is the same for every transposition of a set, and
 * the prime form is the same for every transposition and every inversion.
 * Conversely two sets with the same prime form are related by some Tn or TnI.
 */
module CanonicalForms {
  import opened PcSets

  lemma TransposeAt(s: PcSet, n: int, i: int)
    requires 0 <= i < |s|
    ensures Transpose(s, n)[i] == (s[i] + n) % 12
  {
  }

  lemma InvertAt(s: PcSet, i: int)
    requires 0 <= i < |s|
    ensures Invert(s)[i] == (12 - s[i]) % 12
  {
  }

  lemma TransposeElemsSub(x: PcSet, y: PcSet, n: int)
    requires Elems(x) <= Elems(y)
    ensures Elems(Transpose(x, n)) <= Elems(Transpose(y, n))
  {
    forall v | v in Elems(Transpose(x, n)) ensures v in Elems(Transpose(y, n)) {
      var i :| 0 <= i < |x| && Transpose(x, n)[i] == v;
      assert x[i] in Elems(y);
      var j :| 0 <= j < |y| && y[j] == x[i];
      TransposeAt(x, n, i);
      TransposeAt(y, n, j);
      assert Transpose(y, n)[j] == v;
    }
  }

  /** Transposition acts on the members only: equal members give equal members. */
  lemma TransposeElems(x: PcSet, y: PcSet, n: int)
    requires Elems(x) == Elems(y)
    ensures Elems(Transpose(x, n)) == Elems(Transpose(y, n))
  {
    TransposeElemsSub(x, y, n);
    TransposeElemsSub(y, x, n);
  }

  lemma InvertElemsSub(x: PcSet, y: PcSet)
    requires Elems(x) <= Elems(y)
    ensures Elems(Invert(x)) <= Elems(Invert(y))
  {
    forall v | v in Elems(Invert(x)) ensures v in Elems(Invert(y)) {
      var i :| 0 <= i < |x| && Invert(x)[i] == v;
      assert x[i] in Elems(y);
      var j :| 0 <= j < |y| && y[j] == x[i];
      InvertAt(x, i);
      InvertAt(y, j);
      assert Invert(y)[j] == v;
    }
  }

  /** Inversion acts on the members only. */
  lemma InvertElems(x: PcSet, y: PcSet)
    requires Elems(x) == Elems(y)
    ensures Elems(Invert(x)) == Elems(Invert(y))
  {
    InvertElemsSub(x, y);
    InvertElemsSub(y, x);
  }

  /**
   * s moved down by a, so that a lands on 0. Kept as a function of its own so
   * that the negated interval stays inside one body.
   */
  function Down(s: PcSet, a: int): (r: PcSet)
    ensures |r| == |s|
  {
    Transpose(s, -a)
  }

  lemma DownAt(s: PcSet, a: int, i: int)
    requires 0 <= i < |s|
    ensures Down(s, a)[i] == (s[i] - a) % 12
  {
  }

  /** zero() moves the set down by its first element. */
  lemma ZeroIsDown(s: PcSet)
    requires s != []
    ensures Zero(s) == Down(s, s[0])
  {
  }

  lemma DownElemsSub(x: PcSet, y: PcSet, a: int)
    requires Elems(x) <= Elems(y)
    ensures Elems(Down(x, a)) <= Elems(Down(y, a))
  {
    forall v | v in Elems(Down(x, a)) ensures v in Elems(Down(y, a)) {
      var i :| 0 <= i < |x| && Down(x, a)[i] == v;
      assert x[i] in Elems(y);
      var j :| 0 <= j < |y| && y[j] == x[i];
      DownAt(x, a, i);
      DownAt(y, a, j);
      assert Down(y, a)[j] == v;
    }
  }

  /** Moving down acts on the members only. */
  lemma DownElems(x: PcSet, y: PcSet, a: int)
    requires Elems(x) == Elems(y)
    ensures Elems(Down(x, a)) == Elems(Down(y, a))
  {
    DownElemsSub(x, y, a);
    DownElemsSub(y, x, a);
  }

  lemma ZeroAt(s: PcSet, i: int)
    requires s != [] && 0 <= i < |s|
    ensures Zero(s)[i] == (s[i] - s[0]) % 12
  {
    ZeroIsDown(s);
    DownAt(s, s[0], i);
  }

  /** Moving any rotation of an ascending set to 0 gives an ascending set. */
  lemma ZeroRotationAscending(o: PcSet, j: int)
    requires StrictlyIncreasing(o) && |o| >= 2 && 0 <= j < |o|
    ensures StrictlyIncreasing(Zero(Rotation(o, j)))
  {
    forall a, b | 0 <= a < b < |o| ensures Zero(Rotation(o, j))[a] < Zero(Rotation(o, j))[b] {
      ZeroRotationPair(o, j, a, b);
    }
  }

  /** Two positions of the rotation by j, moved to 0, keep their order. */
  lemma ZeroRotationPair(o: PcSet, j: int, a: int, b: int)
    requires StrictlyIncreasing(o) && |o| >= 2 && 0 <= j < |o| && 0 <= a < b < |o|
    ensures Zero(Rotation(o, j))[a] < Zero(Rotation(o, j))[b]
  {
    var m := |o|;
    ZeroRotationAt(o, j, a);
    ZeroRotationAt(o, j, b);
    if j == 0 {
      assert o[a] < o[b];
    } else if b < j {
      assert o[a + m - j] < o[b + m - j];
    } else if a < j {
      assert o[a + m - j] < 12 && o[b - j] >= 0;
    } else {
      assert o[a - j] < o[b - j];
    }
  }

  /** Element i of the rotation by j, moved to 0: the elements that wrapped around gain 12. */
  lemma ZeroRotationAt(o: PcSet, j: int, i: int)
    requires StrictlyIncreasing(o) && |o| >= 2 && 0 <= j < |o| && 0 <= i < |o|
    ensures j == 0 ==> Zero(Rotation(o, j))[i] == o[i] - o[0]
    ensures 0 < j && i < j ==> Zero(Rotation(o, j))[i] == o[i + |o| - j] - o[|o| - j]
    ensures 0 < j <= i ==> Zero(Rotation(o, j))[i] == o[i - j] - o[|o| - j] + 12
  {
    var m := |o|;
    ModSmall(j, m);
    var r := Rotation(o, j);
    assert r == RotateRight(o, j);
    var p := if j == 0 then 0 else m - j;
    assert r[0] == o[p];
    ZeroAt(r, i);
    if j == 0 {
      assert r[i] == o[i];
      ModSmall(o[i] - o[0], 12);
    } else if i < j {
      assert r[i] == o[i + p];
      ModSmall(o[i + p] - o[p], 12);
    } else {
      assert r[i] == o[i - j] && i - j < p;
      ModUnique(r[i] - o[p], 12, -1, r[i] - o[p] + 12);
    }
  }

  /**
   * r is the reduced form of s: ascending, s moved down by one of its members,
   * and of least encoding among all the ways of moving s down by a member.
   */
  ghost predicate IsReducedOf(r: PcSet, s: PcSet) {
    && StrictlyIncreasing(r)
    && (exists a :: a in s && Elems(r) == Elems(Down(s, a)))
    && LeastDown(r, s)
  }

  /** r encodes no higher than s moved down by any of its members. */
  ghost predicate LeastDown(r: PcSet, s: PcSet) {
    forall a {:trigger Down(s, a)} :: a in s ==> Encoding(r) <= Encoding(Down(s, a))
  }

  /** The characterisation leaves no choice. */
  lemma ReducedUnique(r1: PcSet, r2: PcSet, s: PcSet)
    requires IsReducedOf(r1, s) && IsReducedOf(r2, s)
    ensures r1 == r2
  {
    var a1 :| a1 in s && Elems(r1) == Elems(Down(s, a1));
    var a2 :| a2 in s && Elems(r2) == Elems(Down(s, a2));
    EncodingInjective(r1, Down(s, a1));
    EncodingInjective(r2, Down(s, a2));
    assert Encoding(r1) <= Encoding(Down(s, a2)) == Encoding(r2);
    assert Encoding(r2) <= Encoding(Down(s, a1)) == Encoding(r1);
    EncodingInjective(r1, r2);
    assert Elems(r1) == Elems(r2);
    AscendingUnique(r1, r2);
  }

  /** Every member a starts some rotation of sort(), whose zero() is s moved down by a. */
  lemma ReducedBelow(s: PcSet, a: int)
    requires |s| >= 2 && a in s
    ensures Encoding(Reduced(s)) <= Encoding(Down(s, a))
  {
    var o := Sort(s);
    var m := |o|;
    assert a in Elems(o);
    var i :| 0 <= i < m && o[i] == a;
    var j := if i == 0 then 0 else m - i;
    RotationMoves(o, j, i);
    if i == 0 {
      ModSmall(0, m);
    } else {
      ModUnique(i + j, m, 1, 0);
    }
    var rj := Rotation(o, j);
    assert rj[0] == a;
    ZeroIsDown(rj);
    DownElems(rj, s, a);
    EncodingInjective(Down(rj, a), Down(s, a));
    NormalFormIsLeast(s, j);
  }

  /** reduced() meets the characterisation. */
  lemma ReducedIs(s: PcSet)
    requires s != []
    ensures IsReducedOf(Reduced(s), s)
  {
    var z := Reduced(s);
    if |s| == 1 {
      ZeroIsDown(s);
      assert z == Down(s, s[0]);
      assert s[0] in s;
      forall a | a in s ensures Encoding(z) <= Encoding(Down(s, a)) {
        assert a == s[0];
      }
    } else {
      var o := Sort(s);
      var r := NormalForm(s);
      ZeroRotationAscending(o, NormalIndex(s));
      ZeroIsDown(r);
      assert r[0] in Elems(r);
      DownElems(r, s, r[0]);
      forall a | a in s ensures Encoding(z) <= Encoding(Down(s, a)) {
        ReducedBelow(s, a);
      }
    }
  }

  /** Moving down by n - ((a + n) mod 12) is moving down by a. */
  lemma DownModulo(s: PcSet, n: int, a: int)
    ensures Transpose(s, n - (a + n) % 12) == Down(s, a)
  {
    ModNegMod(a + n, n);
    var k := n - (a + n) % 12;
    assert k % 12 == (-a) % 12;
    TransposeModulo(s, k);
    TransposeModulo(s, -a);
  }

  /** Member a of s becomes member b = (a + n) mod 12 of Tn(s), and both move to 0 alike. */
  lemma ShiftedStart(s: PcSet, n: int, a: int, b: int)
    requires a in s && b == (a + n) % 12
    ensures b in Transpose(s, n)
    ensures Down(Transpose(s, n), b) == Down(s, a)
  {
    var i :| 0 <= i < |s| && s[i] == a;
    TransposeAt(s, n, i);
    ShiftedZero(s, n, a, b);
  }

  lemma ShiftedZero(s: PcSet, n: int, a: int, b: int)
    requires b == (a + n) % 12
    ensures Down(Transpose(s, n), b) == Down(s, a)
  {
    TransposeCompose(s, n, -b);
    DownModulo(s, n, a);
  }

  /** Every member of Tn(s) comes from a member of s. */
  lemma Preimage(s: PcSet, n: int, b: int)
    requires b in Transpose(s, n)
    ensures exists a :: a in s && b == (a + n) % 12
  {
    var t := Transpose(s, n);
    var i :| 0 <= i < |t| && t[i] == b;
    TransposeAt(s, n, i);
    assert s[i] in s;
  }

  /** The characterisation does not change under transposition of the set. */
  lemma ReducedOfTransposed(r: PcSet, s: PcSet, n: int)
    requires IsReducedOf(r, s)
    ensures IsReducedOf(r, Transpose(s, n))
  {
    var t := Transpose(s, n);
    var a :| a in s && Elems(r) == Elems(Down(s, a));
    var b0 := (a + n) % 12;
    ShiftedStart(s, n, a, b0);
    assert b0 in t && Elems(r) == Elems(Down(t, b0));
    forall b | b in t ensures Encoding(r) <= Encoding(Down(t, b)) {
      ReducedBelowTransposed(r, s, n, b);
    }
  }

  lemma {:induction false} ReducedBelowTransposed(r: PcSet, s: PcSet, n: int, b: int)
    requires LeastDown(r, s) && b in Transpose(s, n)
    ensures Encoding(r) <= Encoding(Down(Transpose(s, n), b))
  {
    Preimage(s, n, b);
    var a :| a in s && b == (a + n) % 12;
    ShiftedStart(s, n, a, b);
    assert Encoding(r) <= Encoding(Down(s, a));
  }

  /** Transposed sets have the same reduced form. */
  lemma ReducedTranspose(s: PcSet, n: int)
    ensures Reduced(Transpose(s, n)) == Reduced(s)
  {
    if s != [] {
      ReducedIs(s);
      ReducedOfTransposed(Reduced(s), s, n);
      ReducedIs(Transpose(s, n));
      ReducedUnique(Reduced(s), Reduced(Transpose(s, n)), Transpose(s, n));
    }
  }

  /** The reduced form is ascending. */
  lemma ReducedAscending(s: PcSet)
    ensures StrictlyIncreasing(Reduced(s))
  {
    if s != [] {
      ReducedIs(s);
    }
  }

  /** The prime form is ascending. */
  lemma PrimeAscending(s: PcSet)
    ensures StrictlyIncreasing(Prime(s))
  {
    ReducedAscending(s);
    ReducedAscending(Invert(s));
  }

  /** Inverting Tn(s) is transposing the inversion by any m with m + n = 0 (mod 12). */
  lemma InvertTransposeBy(s: PcSet, n: int, m: int)
    requires (m + n) % 12 == 0
    ensures Invert(Transpose(s, n)) == Transpose(Invert(s), m)
  {
    InvertTranspose(s, n);
    TransposeModulo(Invert(s), -n);
    TransposeModulo(Invert(s), m);
    ModAddMod(m + n, -n);
  }

  lemma ReducedInvertTranspose(s: PcSet, n: int)
    ensures Reduced(Invert(Transpose(s, n))) == Reduced(Invert(s))
  {
    var m := 12 - n % 12;
    ModAddMod(n, m);
    InvertTransposeBy(s, n, m);
    ReducedTranspose(Invert(s), m);
  }

  /** prime() looks only at the two reduced forms. */
  lemma PrimeOfReduced(s: PcSet, t: PcSet)
    requires Reduced(t) == Reduced(s) && Reduced(Invert(t)) == Reduced(Invert(s))
    ensures Prime(t) == Prime(s)
  {
  }

  /** Transposed sets have the same prime form. */
  lemma PrimeTranspose(s: PcSet, n: int)
    ensures Prime(Transpose(s, n)) == Prime(s)
  {
    ReducedTranspose(s, n);
    ReducedInvertTranspose(s, n);
    PrimeOfReduced(s, Transpose(s, n));
  }

  /** A set and its inversion have the same prime form, whichever way the tie falls. */
  lemma PrimeInvert(s: PcSet)
    ensures Prime(Invert(s)) == Prime(s)
  {
    InvertInvolution(s);
    var a, b := Reduced(s), Reduced(Invert(s));
    if Encoding(a) == Encoding(b) {
      EncodingInjective(a, b);
      ReducedAscending(s);
      ReducedAscending(Invert(s));
      AscendingUnique(a, b);
    }
  }

  /** Every TnI of a set has its prime form. */
  lemma PrimeTnI(s: PcSet, n: int)
    ensures Prime(TnI(s, n)) == Prime(s)
  {
    PrimeTranspose(Invert(s), n);
    PrimeInvert(s);
  }

  /** The members of the reduced form are those of some transposition of the set. */
  lemma ReducedMembers(s: PcSet)
    ensures exists c :: Elems(Reduced(s)) == Elems(Transpose(s, c))
  {
    if s == [] {
      assert Elems(Reduced(s)) == Elems(Transpose(s, 0));
    } else {
      var r := NormalForm(s);
      ZeroIsDown(r);
      DownElems(r, s, r[0]);
      assert Elems(Reduced(s)) == Elems(Down(s, r[0]));
    }
  }

  /** The members of the prime form are those of some Tn or TnI of the set. */
  lemma PrimeMembers(s: PcSet)
    ensures exists c :: Elems(Prime(s)) == Elems(Transpose(s, c))
                     || Elems(Prime(s)) == Elems(TnI(s, c))
  {
    ReducedMembers(s);
    ReducedMembers(Invert(s));
    var c :| Elems(Reduced(s)) == Elems(Transpose(s, c));
    var d :| Elems(Reduced(Invert(s))) == Elems(Transpose(Invert(s), d));
    if Prime(s) == Reduced(s) {
      assert Elems(Prime(s)) == Elems(Transpose(s, c));
    } else {
      assert Elems(Prime(s)) == Elems(TnI(s, d));
    }
  }

  /** Undoing a transposition of b: b's members are those of y moved down again. */
  lemma UndoTranspose(b: PcSet, d: int, y: PcSet)
    requires Elems(Transpose(b, d)) == Elems(y)
    ensures Elems(b) == Elems(Down(y, d))
  {
    DownElems(Transpose(b, d), y, d);
    TransposeCompose(b, d, -d);
    TransposeZero(b);
  }

  lemma UndoTnI(b: PcSet, d: int, y: PcSet)
    requires Elems(TnI(b, d)) == Elems(y)
    ensures Elems(b) == Elems(Invert(Down(y, d)))
  {
    UndoTranspose(Invert(b), d, y);
    InvertElems(Invert(b), Down(y, d));
    InvertInvolution(b);
  }

  /** Moving Tc(x) down by d is T((c - d) mod 12)(x). */
  lemma DownOfTranspose(x: PcSet, c: int, d: int, n: int)
    requires n == (c - d) % 12
    ensures Down(Transpose(x, c), d) == Transpose(x, n)
  {
    TransposeCompose(x, c, -d);
    TransposeModulo(x, c - d);
  }

  /** Inverting T((c - d) mod 12)(x) is T((d - c) mod 12) of the inversion. */
  lemma InvertOfDifference(x: PcSet, n: int, k: int)
    requires (n + k) % 12 == 0
    ensures Invert(Transpose(x, n)) == Transpose(Invert(x), k)
  {
    InvertTransposeBy(x, n, k);
  }

  /** Sets with the same prime form are related by some Tn or TnI, n in 0..11. */
  lemma SamePrimeRelated(a: PcSet, b: PcSet)
    requires Prime(a) == Prime(b)
    ensures exists n :: 0 <= n < 12 && (Elems(Transpose(a, n)) == Elems(b) || Elems(TnI(a, n)) == Elems(b))
  {
    PrimeMembers(a);
    PrimeMembers(b);
    var c :| Elems(Prime(a)) == Elems(Transpose(a, c)) || Elems(Prime(a)) == Elems(TnI(a, c));
    var d :| Elems(Prime(b)) == Elems(Transpose(b, d)) || Elems(Prime(b)) == Elems(TnI(b, d));
    var x := if Elems(Prime(a)) == Elems(Transpose(a, c)) then a else Invert(a);
    var y := if Elems(Prime(b)) == Elems(Transpose(b, d)) then b else Invert(b);
    assert Elems(Transpose(x, c)) == Elems(Transpose(y, d));
    RelatedByMembers(a, b, x, y, c, d);
  }

  /** If Tc of a or of its inversion has the members of Td of b or of its inversion. */
  lemma RelatedByMembers(a: PcSet, b: PcSet, x: PcSet, y: PcSet, c: int, d: int)
    requires x == a || x == Invert(a)
    requires y == b || y == Invert(b)
    requires Elems(Transpose(x, c)) == Elems(Transpose(y, d))
    ensures exists n :: 0 <= n < 12 && (Elems(Transpose(a, n)) == Elems(b) || Elems(TnI(a, n)) == Elems(b))
  {
    var n := (c - d) % 12;
    var k := (d - c) % 12;
    ModAddMod(c - d, d - c);
    assert (n + k) % 12 == 0;
    DownOfTranspose(x, c, d, n);
    InvertInvolution(a);
    if y == b {
      UndoTranspose(b, d, Transpose(x, c));
      if x == a {
        assert Elems(Transpose(a, n)) == Elems(b);
      } else {
        assert Elems(TnI(a, n)) == Elems(b);
      }
    } else {
      UndoTnI(b, d, Transpose(x, c));
      InvertOfDifference(x, n, k);
      if x == a {
        assert Elems(TnI(a, k)) == Elems(b);
      } else {
        assert Elems(Transpose(a, k)) == Elems(b);
      }
    }
  }

  /** Sequences with the same members have the same reduced form. */
  lemma ReducedOfMembers(x: PcSet, y: PcSet)
    requires Elems(x) == Elems(y)
    ensures Reduced(x) == Reduced(y)
  {
    if x != [] {
      assert x[0] in Elems(y);
      ReducedIs(x);
      ReducedIs(y);
      ReducedOfSameMembers(Reduced(x), x, y);
      ReducedUnique(Reduced(x), Reduced(y), y);
    } else {
      DistinctCard(y);
    }
  }

  lemma ReducedOfSameMembers(r: PcSet, x: PcSet, y: PcSet)
    requires IsReducedOf(r, x) && Elems(x) == Elems(y)
    ensures IsReducedOf(r, y)
  {
    var a :| a in x && Elems(r) == Elems(Down(x, a));
    assert a in Elems(y);
    DownElems(x, y, a);
    forall b | b in y ensures Encoding(r) <= Encoding(Down(y, b)) {
      assert b in Elems(x);
      DownElems(x, y, b);
      EncodingInjective(Down(x, b), Down(y, b));
    }
  }

  /** Sequences with the same members have the same prime form. */
  lemma PrimeOfMembers(x: PcSet, y: PcSet)
    requires Elems(x) == Elems(y)
    ensures Prime(x) == Prime(y)
  {
    ReducedOfMembers(x, y);
    InvertElems(x, y);
    ReducedOfMembers(Invert(x), Invert(y));
    PrimeOfReduced(x, y);
  }
}
