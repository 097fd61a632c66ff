/**
 * Tone rows: orderings of all twelve pitch classes, their forms P, R, I and
 * RI, rotations, contours, and the family searches built on them.
 */
module ToneRows {
  import opened Wrappers
  import opened PcSets
  import opened PcOps

  /** A tone row: a pitch class set that holds all twelve pitch classes, in some order. */
  type Row = s: PcSet | |s| == 12 witness [0, 1, 2, 3, 4, 5, 6, 7, 8, 9, 10, 11]

  /** The row constructor's failures: a bad definition, or fewer than 12 pitch classes. */
  datatype RowError = BadDefinition(cause: DefinitionError) | IncompleteRow(problem: seq<int>, length: nat)

  // ------------------------------------------------------------ arithmetic

  /** The position after i, wrapping around at the end of the row. */
  lemma Next(i: int)
    requires 0 <= i < 12
    ensures (i + 1) % 12 == if i < 11 then i + 1 else 0
  {
    if i < 11 {
      ModSmall(i + 1, 12);
    } else {
      ModUnique(12, 12, 1, 0);
    }
  }

  /** Differences of two pairs with the same offset agree. */
  lemma ModDiff(p: int, q: int, x: int, y: int)
    requires (p - x) % 12 == (q - y) % 12
    ensures (q - p) % 12 == (y - x) % 12
  {
    var e := (p - x) % 12;
    var k1, k2, j := (p - x) / 12, (q - y) / 12, (y - x) / 12;
    assert p - x == 12 * k1 + e;
    assert q - y == 12 * k2 + e;
    assert y - x == 12 * j + (y - x) % 12;
    ModUnique(q - p, 12, j + k2 - k1, (y - x) % 12);
  }

  /** Negation modulo 12. */
  lemma Neg12(v: int)
    ensures (12 - v % 12) % 12 == (-v) % 12
  {
    ModNegMod(v, 12);
    ModUnique(12 - v, 12, (-v) / 12 + 1, (-v) % 12);
  }

  /** Differences of two pairs that each sum to 0 are opposite. */
  lemma ModOpposite(p: int, q: int, x: int, y: int)
    requires (p + x) % 12 == 0 && (q + y) % 12 == 0
    ensures (q - p) % 12 == (12 - (y - x) % 12) % 12
  {
    var k1, k2 := (p + x) / 12, (q + y) / 12;
    assert p + x == 12 * k1 && q + y == 12 * k2;
    Neg12(y - x);
    ModUnique(q - p, 12, k2 - k1 + (x - y) / 12, (x - y) % 12);
  }

  // ---------------------------------------------------------- construction

  /** The constructor: the set is built, and refused when it has fewer than 12 pitch classes. */
  function NewRow(d: Definition): (r: Result<Row, RowError>)
    ensures r.Ok? <==> Build(d).Ok? && |Build(d).value| == 12
    ensures r.Ok? ==> r.value == Build(d).value
    ensures Build(d).Err? ==> r == Err(BadDefinition(Build(d).error))
    ensures Build(d).Ok? && |Build(d).value| < 12 ==>
              r == Err(IncompleteRow(Build(d).value, |Build(d).value|))
  {
    match Build(d)
    case Err(e) => Err(BadDefinition(e))
    case Ok(s) =>
      AtMostTwelve(s);
      if |s| < 12 then Err(IncompleteRow(s, |s|)) else Ok(s)
  }

  /** Every row is an ordering of all twelve pitch classes. */
  lemma RowIsPermutation(row: Row)
    ensures Elems(row) == AllPcs
  {
    DistinctCard(row);
    ElemsInRange(row);
    AllPcsCard();
    SubsetCard(Elems(row), AllPcs);
  }

  /** Rebuilding a row from its own elements gives it back. */
  lemma RowOfRow(row: Row)
    ensures NewRow(Items(Nums(row))) == Ok(row)
  {
    UnionBuilds(row, []);
    assert row + [] == row;
    DedupOfDistinct(row);
  }

  // -------------------------------------------------------------- row forms

  /** r is x transposed: every element moved by the same interval. */
  predicate TransposedFrom(r: seq<int>, x: seq<int>) {
    |r| == |x| && |x| > 0 && forall i :: 0 <= i < |x| ==> (r[i] - x[i]) % 12 == (r[0] - x[0]) % 12
  }

  /** The transposition of s that starts on m. */
  function TransposeTo(s: PcSet, m: int): (r: PcSet)
    requires s != []
    ensures |r| == |s| && r[0] == m % 12 && TransposedFrom(r, s)
  {
    Transpose(s, m - s[0])
  }

  /** correct_transposition: s transposed so that it starts on moderate(n). */
  function CorrectTransposition(s: PcSet, n: Token): (r: Result<PcSet, DefinitionError>)
    requires s != []
    ensures r.Ok? <==> Moderate(n).Ok?
    ensures r.Err? ==> r.error == Moderate(n).error
    ensures r.Ok? ==> |r.value| == |s| && r.value[0] == Moderate(n).value && TransposedFrom(r.value, s)
  {
    match Moderate(n)
    case Err(e) => Err(e)
    case Ok(m) =>
      ModSmall(m, 12);
      Ok(TransposeTo(s, m))
  }

  /** The four row forms, in the order the family search tries them. */
  datatype Form = PForm | IForm | RForm | RIForm

  /** The untransposed form: the row, its inversion, its retrograde, its retrograde inversion. */
  function FormOf(f: Form, row: Row): (r: Row)
  {
    match f
    case PForm => row
    case IForm => Invert(row)
    case RForm => Reverse(row)
    case RIForm => Reverse(Invert(row))
  }

  /** A row form of a row, transposed to start on moderate(n). */
  function Apply(f: Form, row: Row, n: Token): (r: Result<Row, DefinitionError>)
    ensures r.Ok? <==> Moderate(n).Ok?
    ensures r.Ok? ==> r.value[0] == Moderate(n).value && TransposedFrom(r.value, FormOf(f, row))
  {
    match CorrectTransposition(FormOf(f, row), n)
    case Err(e) => Err(e)
    case Ok(s) => Ok(s)
  }

  /** P(n): the row transposed to start on n. */
  function P(row: Row, n: Token): (r: Result<Row, DefinitionError>)
    ensures r.Ok? <==> Moderate(n).Ok?
    ensures r.Ok? ==> r.value[0] == Moderate(n).value && TransposedFrom(r.value, row)
  {
    Apply(PForm, row, n)
  }

  /** R(n): the retrograde transposed to start on n. */
  function R(row: Row, n: Token): (r: Result<Row, DefinitionError>)
    ensures r.Ok? <==> Moderate(n).Ok?
    ensures r.Ok? ==> r.value[0] == Moderate(n).value && TransposedFrom(r.value, Reverse(row))
  {
    Apply(RForm, row, n)
  }

  /** I(n): the inversion transposed to start on n. */
  function I(row: Row, n: Token): (r: Result<Row, DefinitionError>)
    ensures r.Ok? <==> Moderate(n).Ok?
    ensures r.Ok? ==> r.value[0] == Moderate(n).value && TransposedFrom(r.value, Invert(row))
  {
    Apply(IForm, row, n)
  }

  /** RI(n): the retrograde of the inversion transposed to start on n. */
  function RI(row: Row, n: Token): (r: Result<Row, DefinitionError>)
    ensures r.Ok? <==> Moderate(n).Ok?
    ensures r.Ok? ==> r.value[0] == Moderate(n).value && TransposedFrom(r.value, Reverse(Invert(row)))
  {
    assert FormOf(RIForm, row) == Reverse(Invert(row));
    Apply(RIForm, row, n)
  }

  /** Tone row shift(i): element k moves to position (k + i) mod 12. */
  function RowShift(row: Row, i: int): (r: Row)
  {
    Rotation(row, i)
  }

  /** Element k of the row lands at position (k + i) mod 12. */
  lemma RowShiftMoves(row: Row, i: int, k: int)
    requires 0 <= k < 12
    ensures RowShift(row, i)[(k + i) % 12] == row[k]
  {
    RotationMoves(row, i, k);
  }

  /** rotate(i, n): the shift by i, transposed to start on moderate(n). */
  function Rotate(row: Row, i: int, n: Token): (r: Result<Row, DefinitionError>)
    ensures r.Ok? <==> Moderate(n).Ok?
    ensures r.Ok? ==> r.value[0] == Moderate(n).value && TransposedFrom(r.value, RowShift(row, i))
  {
    match CorrectTransposition(RowShift(row, i), n)
    case Err(e) => Err(e)
    case Ok(s) => Ok(s)
  }

  // ---------------------------------------------------------------- contour

  /** The contour: the ascending interval from each element to the next, wrapping around. */
  function ContourOf(row: seq<int>): (c: seq<int>)
    requires |row| == 12
    ensures |c| == 12
  {
    seq(12, i requires 0 <= i < 12 => (row[(i + 1) % 12] - row[i]) % 12)
  }

  /** contour(): pairs each element with the row shifted back by one place. */
  method Contour(row: Row) returns (c: seq<int>)
    ensures c == ContourOf(row)
  {
    var next := Shift(row, -1);
    c := [];
    for i := 0 to 12
      invariant c == ContourOf(row)[..i]
    {
      Next(i);
      RotationMoves(row, -1, (i + 1) % 12);
      assert ((i + 1) % 12 - 1) % 12 == i by {
        ModSmall(i, 12);
        if i == 11 {
          ModUnique(11 - 12 + 12, 12, 0, 11);
        }
      }
      c := c + [(next[i] - row[i]) % 12];
    }
  }

  /** Transposition leaves the contour unchanged. */
  lemma ContourOfTransposed(r: seq<int>, x: seq<int>)
    requires |x| == 12 && TransposedFrom(r, x)
    ensures ContourOf(r) == ContourOf(x)
  {
    forall i | 0 <= i < 12 ensures ContourOf(r)[i] == ContourOf(x)[i] {
      var j := (i + 1) % 12;
      Next(i);
      ModDiff(r[i], r[j], x[i], x[j]);
    }
  }

  /** Inversion turns every contour interval c into (12 - c) mod 12. */
  lemma ContourOfInvert(x: Row)
    ensures forall i :: 0 <= i < 12 ==> ContourOf(Invert(x))[i] == (12 - ContourOf(x)[i]) % 12
  {
    var v := Invert(x);
    forall i | 0 <= i < 12 ensures ContourOf(v)[i] == (12 - ContourOf(x)[i]) % 12 {
      var j := (i + 1) % 12;
      Next(i);
      ModOpposite(v[i], v[j], x[i], x[j]);
    }
  }

  /** The contour is the same for every P(n). */
  lemma ContourOfP(row: Row, n: Token)
    requires Moderate(n).Ok?
    ensures ContourOf(P(row, n).value) == ContourOf(row)
  {
    ContourOfTransposed(P(row, n).value, row);
  }

  /** The contour of I(n) inverts each interval of the row's contour. */
  lemma ContourOfI(row: Row, n: Token)
    requires Moderate(n).Ok?
    ensures forall i :: 0 <= i < 12 ==> ContourOf(I(row, n).value)[i] == (12 - ContourOf(row)[i]) % 12
  {
    ContourOfTransposed(I(row, n).value, Invert(row));
    ContourOfInvert(row);
  }

  /** The contour of R(n) is the row's contour read backwards, each interval inverted. */
  lemma ContourOfR(row: Row, n: Token)
    requires Moderate(n).Ok?
    ensures forall i :: 0 <= i < 12 ==>
      ContourOf(R(row, n).value)[i] == (12 - ContourOf(row)[if i < 11 then 10 - i else 11]) % 12
  {
    var v := Reverse(row);
    ContourOfTransposed(R(row, n).value, v);
    forall i | 0 <= i < 12 ensures ContourOf(v)[i] == (12 - ContourOf(row)[if i < 11 then 10 - i else 11]) % 12 {
      ContourOfReversed(row, v, i);
    }
  }

  /** The contour of RI(n) is the row's contour read backwards. */
  lemma ContourOfRI(row: Row, n: Token)
    requires Moderate(n).Ok?
    ensures forall i :: 0 <= i < 12 ==>
      ContourOf(RI(row, n).value)[i] == ContourOf(row)[if i < 11 then 10 - i else 11]
  {
    ContourOfTransposed(RI(row, n).value, Reverse(Invert(row)));
    ContourOfRetrogradeInversion(row);
  }

  /** The retrograde of the inversion reads the row's contour backwards. */
  lemma ContourOfRetrogradeInversion(row: Row)
    ensures forall i :: 0 <= i < 12 ==>
      ContourOf(Reverse(Invert(row)))[i] == ContourOf(row)[if i < 11 then 10 - i else 11]
  {
    var x: seq<int> := Invert(row);
    var v: seq<int> := Reverse(Invert(row));
    ContourOfInvert(row);
    assert forall k :: 0 <= k < 12 ==> v[k] == x[11 - k];
    ContourOfReversedInverted(row, x, v);
  }

  lemma ContourOfReversedInverted(r: seq<int>, x: seq<int>, v: seq<int>)
    requires |r| == 12 && |x| == 12 && |v| == 12
    requires forall k :: 0 <= k < 12 ==> v[k] == x[11 - k]
    requires forall i :: 0 <= i < 12 ==> ContourOf(x)[i] == (12 - ContourOf(r)[i]) % 12
    ensures forall i :: 0 <= i < 12 ==> ContourOf(v)[i] == ContourOf(r)[if i < 11 then 10 - i else 11]
  {
    forall i | 0 <= i < 12 ensures ContourOf(v)[i] == ContourOf(r)[if i < 11 then 10 - i else 11] {
      ContourOfRIAt(r, x, v, i);
    }
  }

  /** Reversing an inversion undoes the inversion of each interval it reads backwards. */
  lemma {:induction false} ContourOfRIAt(r: seq<int>, x: seq<int>, v: seq<int>, i: int)
    requires |r| == 12 && |x| == 12 && |v| == 12 && 0 <= i < 12
    requires forall k :: 0 <= k < 12 ==> v[k] == x[11 - k]
    requires ContourOf(x)[if i < 11 then 10 - i else 11] == (12 - ContourOf(r)[if i < 11 then 10 - i else 11]) % 12
    ensures ContourOf(v)[i] == ContourOf(r)[if i < 11 then 10 - i else 11]
  {
    ContourOfReversed(x, v, i);
    var c := ContourOf(r)[if i < 11 then 10 - i else 11];
    assert 0 <= c < 12;
    assert (12 - (12 - c) % 12) % 12 == c;
  }

  /** The ascending chromatic scale steps up by one semitone everywhere. */
  lemma ContourOfChromatic()
    ensures ContourOf(Chromatic) == seq(12, i => 1)
  {
    forall i | 0 <= i < 12 ensures ContourOf(Chromatic)[i] == 1 {
      Next(i);
      if i == 11 {
        ModUnique(-11, 12, -1, 1);
      } else {
        ModSmall(1, 12);
      }
    }
  }

  /** The contour and the first element determine the row. */
  lemma ContourDeterminesRow(x: Row, y: Row)
    requires x[0] == y[0] && ContourOf(x) == ContourOf(y)
    ensures x == y
  {
    forall k | 0 <= k < 12 ensures x[k] == y[k] {
      ContourPrefix(x, y, k);
    }
  }

  lemma {:induction false} ContourPrefix(x: Row, y: Row, k: nat)
    requires k < 12 && x[0] == y[0] && ContourOf(x) == ContourOf(y)
    ensures x[k] == y[k]
  {
    if k > 0 {
      ContourPrefix(x, y, k - 1);
      Next(k - 1);
      assert (x[k] - x[k - 1]) % 12 == (y[k] - y[k - 1]) % 12 by {
        assert ContourOf(x)[k - 1] == ContourOf(y)[k - 1];
      }
      ModDiff(x[k - 1], x[k], y[k - 1], y[k]);
      ModSmall(x[k], 12);
      ModSmall(y[k], 12);
      assert (x[k] - y[k]) % 12 == 0 by {
        ModDiff(x[k], y[k], x[k - 1], y[k - 1]);
      }
      ModSmall(0, 12);
    }
  }

  // ------------------------------------------------------- family searches

  /** Form f of the row, transposed to start on 0. */
  function Start(f: Form, row: Row): (r: Row)
    ensures r[0] == 0
  {
    ModSmall(0, 12);
    Apply(f, row, Num(0)).value
  }

  /** Starting a form on 0 is zero() of that form. */
  lemma StartIsZero(f: Form, row: Row)
    ensures Start(f, row) == Zero(FormOf(f, row))
  {
    ModSmall(0, 12);
    ZeroIsTransposition(FormOf(f, row));
  }

  /** equivalent: some form of a, started on 0, is b's P(0). */
  predicate EquivalentOf(a: Row, b: Row) {
    exists f :: Start(f, a) == Start(PForm, b)
  }

  /** equivalent(a, b): tries P(0), I(0), R(0) and RI(0) of a against P(0) of b. */
  method Equivalent(a: Row, b: Row) returns (r: bool)
    ensures r == EquivalentOf(a, b)
  {
    StartOnZero(PForm, b);
    var standard := P(b, Num(0)).value;
    var methods := [PForm, IForm, RForm, RIForm];
    for k := 0 to 4
      invariant forall j :: 0 <= j < k ==> Start(methods[j], a) != standard
    {
      StartOnZero(methods[k], a);
      var test := Apply(methods[k], a, Num(0)).value;
      if test == standard {
        FormWitness(a, b, methods[k]);
        return true;
      }
    }
    NoForm(a, standard, methods);
    return false;
  }

  /** Form f of row, tried on 0, succeeds and gives Start(f, row). */
  lemma StartOnZero(f: Form, row: Row)
    ensures Apply(f, row, Num(0)).Ok? && Apply(f, row, Num(0)).value == Start(f, row)
    ensures f == PForm ==> P(row, Num(0)) == Apply(f, row, Num(0))
  {
    ModSmall(0, 12);
  }

  lemma FormWitness(a: Row, b: Row, f: Form)
    requires Start(f, a) == Start(PForm, b)
    ensures EquivalentOf(a, b)
  {
  }

  /** When none of the four tries matches, no form matches. */
  lemma NoForm(a: Row, standard: Row, methods: seq<Form>)
    requires methods == [PForm, IForm, RForm, RIForm]
    requires forall j :: 0 <= j < 4 ==> Start(methods[j], a) != standard
    ensures forall f :: Start(f, a) != standard
  {
    assert Start(methods[0], a) != standard && Start(methods[1], a) != standard;
    assert Start(methods[2], a) != standard && Start(methods[3], a) != standard;
    forall f ensures Start(f, a) != standard {
      match f
      case PForm =>
      case IForm =>
      case RForm =>
      case RIForm =>
    }
  }

  /** Every row of a's family is equivalent to a. */
  lemma FamilyEquivalent(a: Row, f: Form, n: Token)
    requires Moderate(n).Ok?
    ensures EquivalentOf(a, Apply(f, a, n).value)
  {
    var F := FormOf(f, a);
    var b := Apply(f, a, n).value;
    ApplyIsTranspose(f, a, n);
    StartIsZero(f, a);
    StartIsZero(PForm, b);
    ZeroTranspose(F, Moderate(n).value - F[0]);
    FormWitness(a, b, f);
  }

  /** A successful form is the form transposed so that it starts on moderate(n). */
  lemma ApplyIsTranspose(f: Form, a: Row, n: Token)
    requires Moderate(n).Ok?
    ensures Apply(f, a, n).value == Transpose(FormOf(f, a), Moderate(n).value - FormOf(f, a)[0])
  {
    var F, m := FormOf(f, a), Moderate(n).value;
    assert CorrectTransposition(F, n) == Ok(TransposeTo(F, m));
    assert TransposeTo(F, m) == Transpose(F, m - F[0]);
  }


  /** Two sets with the same zero() differ by the transposition that takes first to first. */
  lemma FromZero(x: PcSet, y: PcSet, m: int, d: int)
    requires x != [] && y != [] && Zero(x) == Zero(y)
    requires m == y[0] && d == m - x[0]
    ensures Transpose(x, d) == y
  {
    ZeroThenTranspose(x, m, d);
    ZeroThenTranspose(y, m, 0);
    TransposeZero(y);
  }

  /** Moving s to 0 and then transposing by m transposes s by m - s[0]. */
  lemma ZeroThenTranspose(s: PcSet, m: int, d: int)
    requires s != [] && d == m - s[0]
    ensures Transpose(Zero(s), m) == Transpose(s, d)
  {
    ZeroIsTransposition(s);
    TransposeCompose(s, -s[0], m);
  }

  /** A row whose P(0) is form f of a, started on 0, is form f of a started on the row's first note. */
  lemma FamilyOfStart(a: Row, b: Row, f: Form)
    requires Start(f, a) == Start(PForm, b)
    ensures Apply(f, a, Num(b[0])) == Ok(b)
  {
    var F := FormOf(f, a);
    var m := b[0];
    ModSmall(m, 12);
    StartIsZero(f, a);
    StartIsZero(PForm, b);
    FromZero(F, b, m, m - F[0]);
  }

  /** Every row equivalent to a is a member of a's family. */
  lemma EquivalentIsFamily(a: Row, b: Row) returns (f: Form, m: int)
    requires EquivalentOf(a, b)
    ensures 0 <= m < 12 && Apply(f, a, Num(m)) == Ok(b)
  {
    f :| Start(f, a) == Start(PForm, b);
    m := b[0];
    FamilyOfStart(a, b, f);
  }

  /** rotequiv: some shift of a is equivalent to b. */
  predicate RotequivOf(a: Row, b: Row) {
    exists n :: 0 <= n < 12 && EquivalentOf(RowShift(a, n), b)
  }

  /** Some n with from <= n < 12 satisfies p, searched upwards from from. */
  predicate AnyFrom(p: int -> bool, from: nat)
    decreases 12 - from
  {
    from < 12 && (p(from) || AnyFrom(p, from + 1))
  }

  /** The upward search agrees with the existential statement. */
  lemma {:induction false} AnyFromIff(p: int -> bool, from: nat)
    ensures AnyFrom(p, from) <==> exists n :: from <= n < 12 && p(n)
    decreases 12 - from
  {
    if from < 12 {
      AnyFromIff(p, from + 1);
      if exists n :: from <= n < 12 && p(n) {
        var n :| from <= n < 12 && p(n);
        if n != from {
          assert from + 1 <= n < 12 && p(n);
        }
      }
    }
  }

  /** Some shift by n, from <= n < 12, of a is equivalent to b. */
  predicate RotequivFrom(a: Row, b: Row, from: nat) {
    AnyFrom(n => EquivalentOf(RowShift(a, n), b), from)
  }

  /** The recursive search agrees with the existential definition. */
  lemma RotequivFromIff(a: Row, b: Row, from: nat)
    ensures RotequivFrom(a, b, from) <==> exists n :: from <= n < 12 && EquivalentOf(RowShift(a, n), b)
  {
    var p := n => EquivalentOf(RowShift(a, n), b);
    AnyFromIff(p, from);
    if RotequivFrom(a, b, from) {
      var n :| from <= n < 12 && p(n);
      assert EquivalentOf(RowShift(a, n), b);
    }
    if exists n :: from <= n < 12 && EquivalentOf(RowShift(a, n), b) {
      var n :| from <= n < 12 && EquivalentOf(RowShift(a, n), b);
      assert p(n);
    }
  }

  /** Every row rotationally equivalent to a is a member of the family of a shift of a. */
  lemma RotequivIsShiftedFamily(a: Row, b: Row) returns (n: int, f: Form, m: int)
    requires RotequivOf(a, b)
    ensures 0 <= n < 12 && 0 <= m < 12 && Apply(f, RowShift(a, n), Num(m)) == Ok(b)
  {
    n :| 0 <= n < 12 && EquivalentOf(RowShift(a, n), b);
    f, m := EquivalentIsFamily(RowShift(a, n), b);
  }

  /** rotequiv(a, b): tries equivalent(a.shift(n), b) for n = 0..11 in turn. */
  method Rotequiv(a: Row, b: Row) returns (r: bool)
    ensures r == RotequivOf(a, b)
  {
    RotequivFromIff(a, b, 0);
    for n := 0 to 12
      invariant RotequivOf(a, b) == RotequivFrom(a, b, n)
    {
      var shifted := Shift(a, n);
      var e := Equivalent(shifted, b);
      if e {
        return true;
      }
    }
    return false;
  }

  // ------------------------------------------------ shifts of row families

  /** Shifting commutes with transposition. */
  lemma RotationTranspose(s: PcSet, n: int, d: int)
    ensures Rotation(Transpose(s, d), n) == Transpose(Rotation(s, n), d)
  {
    if |s| > 1 {
      forall i | 0 <= i < |s| ensures Rotation(Transpose(s, d), n)[i] == Transpose(Rotation(s, n), d)[i] {
        RotationTransposeAt(s, n, d, i);
      }
    }
  }

  lemma {:induction false} RotationTransposeAt(s: PcSet, n: int, d: int, i: int)
    requires |s| > 1 && 0 <= i < |s|
    ensures Rotation(Transpose(s, d), n)[i] == Transpose(Rotation(s, n), d)[i]
  {
    var k := n % |s|;
    var t := Transpose(s, d);
    var r := Rotation(s, n);
    assert Rotation(t, n) == RotateRight(t, k);
    assert r == RotateRight(s, k);
    var j := if i < k then i + |s| - k else i - k;
    assert Rotation(t, n)[i] == t[j];
    assert r[i] == s[j];
  }

  /** Shifting commutes with inversion. */
  lemma RotationInvert(s: PcSet, n: int)
    ensures Rotation(Invert(s), n) == Invert(Rotation(s, n))
  {
    if |s| > 1 {
      forall i | 0 <= i < |s| ensures Rotation(Invert(s), n)[i] == Invert(Rotation(s, n))[i] {
        RotationInvertAt(s, n, i);
      }
    }
  }

  lemma {:induction false} RotationInvertAt(s: PcSet, n: int, i: int)
    requires |s| > 1 && 0 <= i < |s|
    ensures Rotation(Invert(s), n)[i] == Invert(Rotation(s, n))[i]
  {
    var k := n % |s|;
    var t := Invert(s);
    var r := Rotation(s, n);
    assert Rotation(t, n) == RotateRight(t, k);
    assert r == RotateRight(s, k);
    var j := if i < k then i + |s| - k else i - k;
    assert Rotation(t, n)[i] == t[j];
    assert r[i] == s[j];
  }

  /** The remainder of -n. */
  lemma NegativeShift(n: int, m: int)
    requires m > 1
    ensures (-n) % m == if n % m == 0 then 0 else m - n % m
  {
    var k := n % m;
    assert n == (n / m) * m + k;
    if k == 0 {
      ModUnique(-n, m, -(n / m), 0);
    } else {
      ModUnique(-n, m, -(n / m) - 1, m - k);
    }
  }

  /** Shifting the retrograde is the retrograde of the opposite shift. */
  lemma {:induction false} RotationReverse(s: PcSet, n: int, m: int)
    requires m == -n
    ensures Rotation(Reverse(s), n) == Reverse(Rotation(s, m))
  {
    if |s| > 1 {
      var L := |s|;
      NegativeShift(n, L);
      var x := Rotation(Reverse(s), n);
      var y := Reverse(Rotation(s, m));
      forall i | 0 <= i < L ensures x[i] == y[i] {
        RotationReverseAt(s, n % L, m % L, i);
      }
    }
  }

  /** Position i of both sides of RotationReverse, for rotation amounts k and k' that cancel. */
  lemma {:induction false} RotationReverseAt(s: PcSet, k: int, k': int, i: int)
    requires |s| > 1 && 0 <= k < |s| && 0 <= i < |s|
    requires k' == if k == 0 then 0 else |s| - k
    ensures RotateRight(Reverse(s), k)[i] == Reverse(RotateRight(s, k'))[i]
  {
    var L := |s|;
    var v := Reverse(s);
    var r := RotateRight(s, k');
    var j := if i < k then i + L - k else i - k;
    assert RotateRight(v, k)[i] == v[j] == s[L - 1 - j];
    var i' := L - 1 - i;
    assert Reverse(r)[i] == r[i'];
    var j' := if i' < k' then i' + L - k' else i' - k';
    assert r[i'] == s[j'];
    assert j' == L - 1 - j;
  }


  /** Only the shift modulo 12 matters. */
  lemma RowShiftModulo(a: Row, k: int)
    ensures RowShift(a, k) == RowShift(a, k % 12)
  {
    ModUnique(k % 12, 12, 0, k % 12);
  }

  lemma ShiftedInvert(a: Row, k: int)
    ensures Rotation(Invert(a), k) == Invert(RowShift(a, k % 12))
  {
    RowShiftModulo(a, k);
    RotationInvert(a, k);
  }

  lemma {:induction false} ShiftedReverse(a: Row, k: int, m: int)
    requires m == -k
    ensures Rotation(Reverse(a), k) == Reverse(RowShift(a, m % 12))
  {
    RowShiftModulo(a, m);
    RotationReverse(a, k, m);
  }

  lemma ShiftedRetrogradeInversion(a: Row, k: int, m: int)
    requires m == -k
    ensures Rotation(Reverse(Invert(a)), k) == Reverse(Invert(RowShift(a, m % 12)))
  {
    var v := Invert(a);
    RotationReverse(v, k, m);
    RotationInvert(a, m);
    RowShiftModulo(a, m);
  }

  /** A shift of a form of the row is that form of some shift of the row. */
  lemma ShiftedForm(f: Form, a: Row, k: int) returns (n: int)
    ensures 0 <= n < 12 && Rotation(FormOf(f, a), k) == FormOf(f, RowShift(a, n))
  {
    match f
    case PForm =>
      n := k % 12;
      RowShiftModulo(a, k);
    case IForm =>
      n := k % 12;
      ShiftedInvert(a, k);
    case RForm =>
      var m := -k;
      n := m % 12;
      ShiftedReverse(a, k, m);
    case RIForm =>
      var m := -k;
      n := m % 12;
      ShiftedRetrogradeInversion(a, k, m);
  }

  /** Every shift of every member of a's family is rotationally equivalent to a. */
  lemma FamilyRotequiv(a: Row, f: Form, n: Token, k: int)
    requires Moderate(n).Ok?
    ensures RotequivOf(a, RowShift(Apply(f, a, n).value, k))
  {
    var F := FormOf(f, a);
    var m := Moderate(n).value;
    ModSmall(m, 12);
    var d := m - F[0];
    var b := RowShift(Apply(f, a, n).value, k);
    assert Apply(f, a, n).value == Transpose(F, d);
    RotationTranspose(F, k, d);
    var rf := Rotation(F, k);
    assert b == Transpose(rf, d);
    var j := ShiftedForm(f, a, k);
    var shifted := RowShift(a, j);
    StartIsZero(f, shifted);
    StartIsZero(PForm, b);
    ZeroTranspose(rf, d);
    assert Start(f, shifted) == Start(PForm, b);
  }

  // ---------------------------------------------- a row outside the family

  /** Every interval of the contour is a semitone up or down. */
  predicate Stepwise(x: Row) {
    forall i :: 0 <= i < 12 ==> ContourOf(x)[i] == 1 || ContourOf(x)[i] == 11
  }

  lemma StepwiseTransposed(r: Row, x: Row)
    requires TransposedFrom(r, x) && Stepwise(x)
    ensures Stepwise(r)
  {
    ContourOfTransposed(r, x);
  }

  lemma StepwiseInvert(x: Row)
    requires Stepwise(x)
    ensures Stepwise(Invert(x))
  {
    ContourOfInvert(x);
  }

  /** Reading a row backwards reverses and negates its contour. */
  lemma ContourOfReversed(x: seq<int>, v: seq<int>, i: int)
    requires |x| == 12 && |v| == 12 && 0 <= i < 12
    requires forall k :: 0 <= k < 12 ==> v[k] == x[11 - k]
    ensures ContourOf(v)[i] == (12 - ContourOf(x)[if i < 11 then 10 - i else 11]) % 12
  {
    var j := if i < 11 then 10 - i else 11;
    Next(i);
    Next(j);
    assert v[i] == x[(j + 1) % 12];
    assert v[(i + 1) % 12] == x[j];
    Neg12(x[(j + 1) % 12] - x[j]);
  }

  lemma {:induction false} StepwiseReverse(x: Row)
    requires Stepwise(x)
    ensures Stepwise(Reverse(x))
  {
    var v := Reverse(x);
    forall i | 0 <= i < 12 ensures ContourOf(v)[i] == 1 || ContourOf(v)[i] == 11 {
      ContourOfReversed(x, v, i);
      var j := if i < 11 then 10 - i else 11;
      assert ContourOf(x)[j] == 1 || ContourOf(x)[j] == 11;
    }
  }

  /** Shifting a row shifts its contour. */
  lemma ContourOfShifted(x: seq<int>, y: seq<int>, n: int, i: int)
    requires |x| == 12 && |y| == 12 && 0 <= i < 12
    requires forall k :: 0 <= k < 12 ==> y[(k + n) % 12] == x[k]
    ensures ContourOf(y)[i] == ContourOf(x)[(i - n) % 12]
  {
    var k := (i - n) % 12;
    ModAddMod(i - n, n);
    ModSmall(i, 12);
    assert y[i] == x[k];
    Next(i);
    Next(k);
    ModAddMod(k + 1, n);
    ModAddMod(k + n, 1);
    assert y[(i + 1) % 12] == x[(k + 1) % 12];
  }

  lemma StepwiseRotation(x: Row, n: int)
    requires Stepwise(x)
    ensures Stepwise(RowShift(x, n))
  {
    var y := RowShift(x, n);
    forall k | 0 <= k < 12 ensures y[(k + n) % 12] == x[k] {
      RotationMoves(x, n, k);
    }
    forall i | 0 <= i < 12 ensures ContourOf(y)[i] == 1 || ContourOf(y)[i] == 11 {
      ContourOfShifted(x, y, n, i);
      var k := (i - n) % 12;
      assert ContourOf(x)[k] == 1 || ContourOf(x)[k] == 11;
    }
  }

  /** A form started on 0 is a transposition of that form. */
  lemma StartTransposed(f: Form, row: Row)
    ensures TransposedFrom(Start(f, row), FormOf(f, row))
  {
    ModSmall(0, 12);
  }

  lemma StepwiseForm(f: Form, x: Row)
    requires Stepwise(x)
    ensures Stepwise(FormOf(f, x))
  {
    match f
    case PForm =>
    case IForm => StepwiseInvert(x);
    case RForm => StepwiseReverse(x);
    case RIForm => StepwiseInvert(x); StepwiseReverse(Invert(x));
  }

  lemma StepwiseStart(f: Form, x: Row)
    requires Stepwise(x)
    ensures Stepwise(Start(f, x))
  {
    StepwiseForm(f, x);
    StartTransposed(f, x);
    StepwiseTransposed(Start(f, x), FormOf(f, x));
  }

  /** The chromatic row is not rotationally equivalent to itself with its last two notes swapped. */
  lemma SwappedEndNotRotequiv(c: Row, t: Row)
    requires c == Chromatic && t == [0, 1, 2, 3, 4, 5, 6, 7, 8, 9, 11, 10]
    ensures !RotequivOf(c, t)
  {
    ContourOfChromatic();
    TransposeZero(t);
    StartIsZero(PForm, t);
    assert Start(PForm, t) == t;
    assert ContourOf(t)[9] == 2 by {
      Next(9);
      ModSmall(2, 12);
    }
    forall n | 0 <= n < 12 ensures !EquivalentOf(RowShift(c, n), t) {
      StepwiseRotation(c, n);
      forall f ensures Start(f, RowShift(c, n)) != t {
        StepwiseStart(f, RowShift(c, n));
      }
    }
  }
}
