/**
 * Relations between pitch class sets: the exhaustive search over the 24
 * operations T0..T11 and T0I..T11I, and the predicates built on it.
 */
module PcOps {
  import opened Wrappers
  import opened PcSets
  import opened CanonicalForms

  // ------------------------------------------------------------ set helpers

  /** Every pitch class. */
  const AllPcs: set<int> := set x | 0 <= x < 12

  /** The ascending chromatic scale. */
  const Chromatic: PcSet := [0, 1, 2, 3, 4, 5, 6, 7, 8, 9, 10, 11]

  lemma AllPcsCard()
    ensures |AllPcs| == 12
  {
    assert Elems(Chromatic) == AllPcs;
    DistinctCard(Chromatic);
  }

  /** A set inside another is no larger; it is the whole of it when it is as large. */
  lemma SubsetCard(A: set<int>, B: set<int>)
    requires A <= B
    ensures |A| <= |B|
    ensures |A| == |B| ==> A == B
  {
    var D := B - A;
    assert B == A + D && A * D == {};
    if |A| == |B| {
      assert |D| == 0;
      assert D == {};
    }
  }

  /** The members of a pitch class set all lie in 0..11. */
  lemma ElemsInRange(s: PcSet)
    ensures Elems(s) <= AllPcs
  {
  }

  /** A pitch class set holds at most 12 pitch classes. */
  lemma AtMostTwelve(s: PcSet)
    ensures |s| <= 12
  {
    DistinctCard(s);
    ElemsInRange(s);
    AllPcsCard();
    SubsetCard(Elems(s), AllPcs);
  }

  // ------------------------------------------------------------------ OpSet

  /** The binary relations the module's searches are run with. */
  datatype Relation = SetEq | Contains | OneToneApart

  /** The result of an OpSet search: the n of the Tn branch and of the TnI branch. */
  datatype OpSet = OpSet(tn: seq<nat>, tni: seq<nat>)

  /** Raised for a polarity other than "normal" and "reverse". */
  datatype OpSetError = OpSetError(mistake: string)

  /** The result that is returned when no match can exist. */
  const NullOpSet: OpSet := OpSet([], [])

  /** The transformation of one branch: T(n), or TnI(n) on the inverted branch. */
  function Mode(s: PcSet, n: int, inverted: bool): (r: PcSet)
    ensures |r| == |s|
  {
    if inverted then TnI(s, n) else Transpose(s, n)
  }

  predicate Holds(rel: Relation, a: PcSet, b: PcSet) {
    match rel
    case SetEq => SetEquality(a, b)
    case Contains => SubsetOf(a, b)
    case OneToneApart => Rp(a, b)
  }

  /** The test made for n: a is transformed, or b is under reverse polarity. */
  predicate Passes(rel: Relation, a: PcSet, b: PcSet, reverse: bool, inverted: bool, n: int) {
    if reverse then Holds(rel, a, Mode(b, n, inverted)) else Holds(rel, Mode(a, n, inverted), b)
  }

  /** The n below k whose entry in the table t is true, in ascending order. */
  function HitsIn(t: seq<bool>, k: nat): (r: seq<nat>)
    requires k <= |t|
    ensures forall i, j :: 0 <= i < j < |r| ==> r[i] < r[j]
    ensures forall i :: 0 <= i < |r| ==> r[i] < k
  {
    if k == 0 then [] else HitsIn(t, k - 1) + (if t[k - 1] then [k - 1] else [])
  }

  lemma {:induction false} HitsInMembers(t: seq<bool>, k: nat)
    requires k <= |t|
    ensures forall n :: n in HitsIn(t, k) <==> 0 <= n < k && t[n]
  {
    if k > 0 {
      HitsInMembers(t, k - 1);
    }
  }

  /** No hits exactly when no entry below k is true. */
  lemma {:induction false} HitsInEmpty(t: seq<bool>, k: nat)
    requires k <= |t|
    ensures HitsIn(t, k) == [] <==> forall n :: 0 <= n < k ==> !t[n]
  {
    if k > 0 {
      HitsInEmpty(t, k - 1);
    }
  }

  /** Which n in 0..11 pass. */
  function PassTable(rel: Relation, a: PcSet, b: PcSet, reverse: bool, inverted: bool): (t: seq<bool>)
    ensures |t| == 12
  {
    seq(12, n => Passes(rel, a, b, reverse, inverted, n))
  }

  /** The n below k that pass, in ascending order. */
  function Hits(rel: Relation, a: PcSet, b: PcSet, reverse: bool, inverted: bool, k: nat): (r: seq<nat>)
    requires k <= 12
    ensures forall i, j :: 0 <= i < j < |r| ==> r[i] < r[j]
    ensures forall i :: 0 <= i < |r| ==> r[i] < k
  {
    HitsIn(PassTable(rel, a, b, reverse, inverted), k)
  }

  /** Hits holds exactly the n below k that pass. */
  lemma HitsMembers(rel: Relation, a: PcSet, b: PcSet, reverse: bool, inverted: bool, k: nat)
    requires k <= 12
    ensures forall n :: n in Hits(rel, a, b, reverse, inverted, k) <==> 0 <= n < k && Passes(rel, a, b, reverse, inverted, n)
  {
    var t := PassTable(rel, a, b, reverse, inverted);
    HitsInMembers(t, k);
    forall n | 0 <= n < k ensures t[n] == Passes(rel, a, b, reverse, inverted, n) { }
  }

  /** One more n: it is added exactly when it passes. */
  lemma HitsStep(rel: Relation, a: PcSet, b: PcSet, reverse: bool, inverted: bool, k: nat)
    requires k < 12
    ensures Hits(rel, a, b, reverse, inverted, k + 1)
      == Hits(rel, a, b, reverse, inverted, k) + (if Passes(rel, a, b, reverse, inverted, k) then [k] else [])
  {
    var t := PassTable(rel, a, b, reverse, inverted);
    assert t[k] == Passes(rel, a, b, reverse, inverted, k);
  }

  predicate KnownPolarity(polarity: string) {
    polarity == "normal" || polarity == "reverse"
  }

  /** What the OpSet constructor produces. */
  function OpSetOf(rel: Relation, a: PcSet, b: PcSet, polarity: string): (r: Result<OpSet, OpSetError>)
    ensures r.Err? <==> !KnownPolarity(polarity)
    ensures r.Err? ==> r.error == OpSetError(polarity)
    ensures r.Ok? ==> forall n :: n in r.value.tn <==> 0 <= n < 12 && Passes(rel, a, b, polarity == "reverse", false, n)
    ensures r.Ok? ==> forall n :: n in r.value.tni <==> 0 <= n < 12 && Passes(rel, a, b, polarity == "reverse", true, n)
  {
    if !KnownPolarity(polarity) then Err(OpSetError(polarity))
    else
      var reverse := polarity == "reverse";
      HitsMembers(rel, a, b, reverse, false, 12);
      HitsMembers(rel, a, b, reverse, true, 12);
      Ok(OpSet(Hits(rel, a, b, reverse, false, 12), Hits(rel, a, b, reverse, true, 12)))
  }

  /**
   * The OpSet constructor: for the Tn mode and then the TnI mode, collects
   * the n for which the relation holds.
   */
  method NewOpSet(rel: Relation, ao: PcSet, bo: PcSet, polarity: string) returns (r: Result<OpSet, OpSetError>)
    ensures r == OpSetOf(rel, ao, bo, polarity)
  {
    var result := OpSet([], []);
    var modes := [false, true];
    for m := 0 to 2
      invariant m > 0 ==> KnownPolarity(polarity)
      invariant result.tn == if m > 0 then Hits(rel, ao, bo, polarity == "reverse", false, 12) else []
      invariant result.tni == if m > 1 then Hits(rel, ao, bo, polarity == "reverse", true, 12) else []
    {
      var found := ModeHits(rel, ao, bo, polarity, modes[m]);
      if found.Err? {
        return Err(found.error);
      }
      if modes[m] {
        result := result.(tni := found.value);
      } else {
        result := result.(tn := found.value);
      }
    }
    return Ok(result);
  }

  /**
   * One mode of the constructor: tries every n in 0..11 in turn and appends
   * those for which the relation holds.  A polarity other than "normal" and
   * "reverse" is refused on the first attempt.
   */
  method ModeHits(rel: Relation, ao: PcSet, bo: PcSet, polarity: string, inverted: bool)
    returns (r: Result<seq<nat>, OpSetError>)
    ensures KnownPolarity(polarity) ==> r == Ok(Hits(rel, ao, bo, polarity == "reverse", inverted, 12))
    ensures !KnownPolarity(polarity) ==> r == Err(OpSetError(polarity))
  {
    var found: seq<nat> := [];
    ghost var reverse := polarity == "reverse";
    for n := 0 to 12
      invariant found == Hits(rel, ao, bo, reverse, inverted, n)
      invariant n > 0 ==> KnownPolarity(polarity)
    {
      var a: PcSet, b: PcSet;
      if polarity == "normal" {
        a := if inverted then TnI(ao, n) else Transpose(ao, n);
        b := bo;
      } else if polarity == "reverse" {
        b := if inverted then TnI(bo, n) else Transpose(bo, n);
        a := ao;
      } else {
        return Err(OpSetError(polarity));
      }
      assert Holds(rel, a, b) == Passes(rel, ao, bo, reverse, inverted, n);
      HitsStep(rel, ao, bo, reverse, inverted, n);
      if Holds(rel, a, b) {
        found := found + [n];
      }
    }
    return Ok(found);
  }

  /** The any property: some operation matched. */
  function Any(o: OpSet): bool {
    !(o.tn == [] && o.tni == [])
  }

  /** any holds exactly when one of the 24 operations passes. */
  lemma AnyOf(rel: Relation, a: PcSet, b: PcSet, polarity: string)
    requires KnownPolarity(polarity)
    ensures var reverse := polarity == "reverse";
      Any(OpSetOf(rel, a, b, polarity).value) <==>
        exists n :: 0 <= n < 12 && (Passes(rel, a, b, reverse, false, n) || Passes(rel, a, b, reverse, true, n))
  {
    var reverse := polarity == "reverse";
    var t, u := PassTable(rel, a, b, reverse, false), PassTable(rel, a, b, reverse, true);
    AnyIn(t, u, 12);
    TableWitness(rel, a, b, reverse);
  }

  /** Some entry of the two tables is true exactly when some n passes. */
  lemma TableWitness(rel: Relation, a: PcSet, b: PcSet, reverse: bool)
    ensures var t, u := PassTable(rel, a, b, reverse, false), PassTable(rel, a, b, reverse, true);
      (exists n :: 0 <= n < 12 && (t[n] || u[n])) <==>
        exists n :: 0 <= n < 12 && (Passes(rel, a, b, reverse, false, n) || Passes(rel, a, b, reverse, true, n))
  {
    var t, u := PassTable(rel, a, b, reverse, false), PassTable(rel, a, b, reverse, true);
    if exists n :: 0 <= n < 12 && (t[n] || u[n]) {
      var n :| 0 <= n < 12 && (t[n] || u[n]);
      assert Passes(rel, a, b, reverse, false, n) || Passes(rel, a, b, reverse, true, n);
    }
    if exists n :: 0 <= n < 12 && (Passes(rel, a, b, reverse, false, n) || Passes(rel, a, b, reverse, true, n)) {
      var n :| 0 <= n < 12 && (Passes(rel, a, b, reverse, false, n) || Passes(rel, a, b, reverse, true, n));
      assert t[n] || u[n];
    }
  }

  /** Some entry of either table below k is true exactly when one of the hit lists is non-empty. */
  lemma {:induction false} AnyIn(t: seq<bool>, u: seq<bool>, k: nat)
    requires k <= |t| && k <= |u|
    ensures (HitsIn(t, k) != [] || HitsIn(u, k) != []) <==> exists n :: 0 <= n < k && (t[n] || u[n])
  {
    HitsInEmpty(t, k);
    HitsInEmpty(u, k);
  }


  // ----------------------------------------------------------- string form

  function DigitChar(d: int): char
    requires 0 <= d < 10
  {
    "0123456789"[d]
  }

  /** The decimal digits of n, as "%d" writes them. */
  function Decimal(n: nat): (r: string)
    ensures |r| >= 1
    ensures forall i :: 0 <= i < |r| ==> '0' <= r[i] <= '9'
  {
    if n < 10 then [DigitChar(n)] else Decimal(n / 10) + [DigitChar(n % 10)]
  }

  /** The words joined by single spaces. */
  function JoinWords(ws: seq<string>): (r: string)
    ensures ws == [] ==> r == []
    ensures ws != [] && ws[0] != [] ==> |r| > 0 && r[0] == ws[0][0]
  {
    if ws == [] then []
    else if |ws| == 1 then ws[0]
    else
      var init := JoinWords(ws[..|ws| - 1]);
      assert ws[..|ws| - 1][0] == ws[0];
      init + " " + ws[|ws| - 1]
  }

  /** The characters str.split() separates words on. */
  predicate IsSpace(c: char) {
    c == ' ' || c == '\t' || c == '\n' || c == '\r' || c == '\U{000B}' || c == '\U{000C}'
  }

  /** A word: non-empty, without white space. */
  predicate IsWord(w: string) {
    |w| > 0 && forall i :: 0 <= i < |w| ==> !IsSpace(w[i])
  }

  /** Where the last run of non-space characters of s begins. */
  function LastWordStart(s: string): (k: nat)
    ensures k <= |s|
    ensures forall i :: k <= i < |s| ==> !IsSpace(s[i])
    ensures k == 0 || IsSpace(s[k - 1])
  {
    if s == [] then 0
    else if IsSpace(s[|s| - 1]) then |s|
    else LastWordStart(s[..|s| - 1])
  }

  /** str.split(): the maximal runs of non-space characters, in order. */
  function Words(s: string): (ws: seq<string>)
    ensures forall i :: 0 <= i < |ws| ==> |ws[i]| > 0 && IsWord(ws[i])
    decreases |s|
  {
    if s == [] then []
    else if IsSpace(s[|s| - 1]) then Words(s[..|s| - 1])
    else
      var k := LastWordStart(s);
      Words(s[..k]) + [s[k..]]
  }

  /** Splitting undoes joining with single spaces. */
  lemma {:induction false} WordsOfJoin(ws: seq<string>)
    requires forall i :: 0 <= i < |ws| ==> IsWord(ws[i])
    ensures Words(JoinWords(ws)) == ws
    decreases |ws|
  {
    if |ws| == 1 {
      var w := ws[0];
      assert LastWordStart(w) == 0;
      assert w[..0] == [] && w[0..] == w;
    } else if |ws| > 1 {
      var init := ws[..|ws| - 1];
      var w := ws[|ws| - 1];
      var a := JoinWords(init);
      WordsOfJoin(init);
      var s := a + " " + w;
      assert JoinWords(ws) == s;
      assert s[|a|] == ' ';
      assert forall i :: |a| + 1 <= i < |s| ==> s[i] == w[i - |a| - 1];
      var k := LastWordStart(s);
      assert k == |a| + 1;
      assert s[..k] == a + " ";
      assert s[k..] == w;
      assert (a + " ")[..|a|] == a;
    }
  }

  /** Splitting the empty string gives no words. */
  lemma WordsOfEmpty()
    ensures Words("") == []
  {
  }

  function OpWords(o: OpSet): (ws: seq<string>)
    ensures |ws| == |o.tn| + |o.tni|
    ensures forall i :: 0 <= i < |ws| ==> |ws[i]| > 0 && ws[i][0] == 'T'
  {
    seq(|o.tn|, i requires 0 <= i < |o.tn| => "T(" + Decimal(o.tn[i]) + ")")
      + seq(|o.tni|, i requires 0 <= i < |o.tni| => "T(" + Decimal(o.tni[i]) + ")I")
  }

  /** str(): "T(n)" for the Tn branch, then "T(n)I" for the TnI branch, or "None". */
  function OpSetStr(o: OpSet): (s: string)
    ensures s == "None" <==> !Any(o)
  {
    var joined := JoinWords(OpWords(o));
    if joined == "" then "None" else joined
  }

  /**
   * str() of an OpSet reads back, word by word, as T(n) for each n of the Tn
   * branch in order, then T(n)I for each n of the TnI branch; "None" when both are empty.
   */
  lemma OpSetStrWords(o: OpSet)
    ensures !Any(o) ==> OpSetStr(o) == "None"
    ensures Any(o) ==> var ws := Words(OpSetStr(o));
      |ws| == |o.tn| + |o.tni|
      && (forall i :: 0 <= i < |o.tn| ==> ws[i] == "T(" + Decimal(o.tn[i]) + ")")
      && (forall j :: 0 <= j < |o.tni| ==> ws[|o.tn| + j] == "T(" + Decimal(o.tni[j]) + ")I")
  {
    var ws := OpWords(o);
    forall i | 0 <= i < |ws| ensures IsWord(ws[i]) {
      if i < |o.tn| {
        OpWordIsWord(o.tn[i], ")");
      } else {
        OpWordIsWord(o.tni[i - |o.tn|], ")I");
      }
    }
    WordsOfJoin(ws);
  }

  /** An operation's word has no white space in it. */
  lemma OpWordIsWord(n: nat, suffix: string)
    requires suffix == ")" || suffix == ")I"
    ensures IsWord("T(" + Decimal(n) + suffix)
  {
    var d := Decimal(n);
    var w := "T(" + d + suffix;
    forall k | 0 <= k < |w| ensures !IsSpace(w[k]) {
      if k < 2 {
      } else if k < 2 + |d| {
        assert w[k] == d[k - 2];
      } else {
        assert w[k] == suffix[k - 2 - |d|];
      }
    }
  }

  /** A result with one operation on each branch. */
  lemma {:induction false} OneOfEach(x: nat, y: nat)
    ensures OpSetStr(OpSet([x], [y])) == "T(" + Decimal(x) + ") T(" + Decimal(y) + ")I"
  {
    var w := OpWords(OpSet([x], [y]));
    assert w[0] == "T(" + Decimal(x) + ")" && w[1] == "T(" + Decimal(y) + ")I";
    assert JoinWords(w) == JoinWords(w[..1]) + " " + w[1];
    assert w[..1] == [w[0]];
  }

  /** The strings of the fit_in and harmonize results for a scale and a seventh chord. */
  lemma OpSetStrExample()
    ensures OpSetStr(OpSet([7], [9])) == "T(7) T(9)I"
    ensures OpSetStr(OpSet([5], [9])) == "T(5) T(9)I"
    ensures OpSetStr(NullOpSet) == "None"
  {
    OneDigitEach(7, 9, "T(7) T(9)I");
    OneDigitEach(5, 9, "T(5) T(9)I");
  }

  /** One single-digit operation on each branch. */
  lemma OneDigitEach(x: nat, y: nat, expected: string)
    requires x < 10 && y < 10
    requires expected == "T(" + [DigitChar(x)] + ") T(" + [DigitChar(y)] + ")I"
    ensures OpSetStr(OpSet([x], [y])) == expected
  {
    OneOfEach(x, y);
    assert Decimal(x) == [DigitChar(x)] && Decimal(y) == [DigitChar(y)];
  }

  // -------------------------------------------------------------- equality

  /** Equal as ordered sequences. */
  predicate ExactEquality(a: PcSet, b: PcSet) {
    a == b
  }

  /** Equal as sets. */
  predicate SetEquality(a: PcSet, b: PcSet) {
    Elems(a) == Elems(b)
  }

  /** Two sets are set-equal exactly when their sorted forms are identical. */
  lemma SetEqualityIsSameSort(a: PcSet, b: PcSet)
    ensures SetEquality(a, b) <==> Sort(a) == Sort(b)
  {
    if SetEquality(a, b) {
      SortUnique(a, Sort(b));
    }
  }

  predicate SamePrime(a: PcSet, b: PcSet) {
    ExactEquality(Prime(a), Prime(b))
  }

  /** Same prime form exactly when the sets are related by some Tn or TnI, order aside. */
  lemma SamePrimeIff(a: PcSet, b: PcSet)
    ensures SamePrime(a, b) <==>
      exists n :: 0 <= n < 12 && (Elems(Transpose(a, n)) == Elems(b) || Elems(TnI(a, n)) == Elems(b))
  {
    if SamePrime(a, b) {
      SamePrimeRelated(a, b);
    }
    if exists n :: 0 <= n < 12 && (Elems(Transpose(a, n)) == Elems(b) || Elems(TnI(a, n)) == Elems(b)) {
      var n :| 0 <= n < 12 && (Elems(Transpose(a, n)) == Elems(b) || Elems(TnI(a, n)) == Elems(b));
      if Elems(Transpose(a, n)) == Elems(b) {
        PrimeOfMembers(Transpose(a, n), b);
        PrimeTranspose(a, n);
      } else {
        PrimeOfMembers(TnI(a, n), b);
        PrimeTnI(a, n);
      }
    }
  }

  // -------------------------------------------------------------- op_path

  /** op_path: the operations on a that yield b, order aside; empty when the primes differ. */
  function OpPath(a: PcSet, b: PcSet): (r: OpSet)
    ensures !SamePrime(a, b) ==> r == NullOpSet
  {
    if !SamePrime(a, b) then NullOpSet else OpSetOf(SetEq, a, b, "normal").value
  }

  /** The Tn branch of op_path is exactly the n with T(n) of a equal to b as sets. */
  lemma OpPathTn(a: PcSet, b: PcSet, n: int)
    ensures n in OpPath(a, b).tn <==> 0 <= n < 12 && Elems(Transpose(a, n)) == Elems(b)
  {
    OpPathBranch(a, b, n, false);
  }

  /** The TnI branch of op_path is exactly the n with TnI(n) of a equal to b as sets. */
  lemma OpPathTnI(a: PcSet, b: PcSet, n: int)
    ensures n in OpPath(a, b).tni <==> 0 <= n < 12 && Elems(TnI(a, n)) == Elems(b)
  {
    OpPathBranch(a, b, n, true);
  }

  /** Either branch of op_path, with its transformation left as Mode. */
  lemma OpPathBranch(a: PcSet, b: PcSet, n: int, inverted: bool)
    ensures var o := OpPath(a, b);
            n in (if inverted then o.tni else o.tn) <==> 0 <= n < 12 && Elems(Mode(a, n, inverted)) == Elems(b)
  {
    SamePrimeIff(a, b);
    if SamePrime(a, b) {
      SameBranch(a, b, n, inverted);
    } else {
      assert !(0 <= n < 12 && (Elems(Transpose(a, n)) == Elems(b) || Elems(TnI(a, n)) == Elems(b)));
    }
  }

  /** With equal primes, op_path's branch holds the n that pass the set-equality test. */
  lemma SameBranch(a: PcSet, b: PcSet, n: int, inverted: bool)
    requires SamePrime(a, b)
    ensures var o := OpPath(a, b);
            n in (if inverted then o.tni else o.tn) <==> 0 <= n < 12 && Elems(Mode(a, n, inverted)) == Elems(b)
  {
    var o := OpPath(a, b);
    var r := OpSetOf(SetEq, a, b, "normal");
    assert o == r.value;
    assert Passes(SetEq, a, b, false, inverted, n) <==> Elems(Mode(a, n, inverted)) == Elems(b);
  }

  /** The sanity check of op_path: once the primes agree, some operation is found. */
  lemma OpPathAny(a: PcSet, b: PcSet)
    ensures Any(OpPath(a, b)) <==> SamePrime(a, b)
  {
    if SamePrime(a, b) {
      SamePrimeIff(a, b);
      var n :| 0 <= n < 12 && (Elems(Transpose(a, n)) == Elems(b) || Elems(TnI(a, n)) == Elems(b));
      OpPathTn(a, b, n);
      OpPathTnI(a, b, n);
      var o := OpPath(a, b);
      assert n in o.tn || n in o.tni;
    }
  }

  /** Ascending n below k, when every n below k passes. */
  lemma HitsAll(rel: Relation, a: PcSet, b: PcSet, reverse: bool, inverted: bool, k: nat)
    requires k <= 12
    requires forall n :: 0 <= n < k ==> Passes(rel, a, b, reverse, inverted, n)
    ensures Hits(rel, a, b, reverse, inverted, k) == seq(k, i => i)
  {
    var t := PassTable(rel, a, b, reverse, inverted);
    forall n | 0 <= n < k ensures t[n] { }
    HitsInAll(t, k);
  }

  lemma {:induction false} HitsInAll(t: seq<bool>, k: nat)
    requires k <= |t|
    requires forall n :: 0 <= n < k ==> t[n]
    ensures HitsIn(t, k) == seq(k, i => i)
  {
    if k > 0 {
      HitsInAll(t, k - 1);
    }
  }

  /** Two empty sets are related by every operation. */
  lemma OpPathOfEmpty(e: PcSet)
    requires e == []
    ensures OpPath(e, e).tn == [0, 1, 2, 3, 4, 5, 6, 7, 8, 9, 10, 11]
    ensures OpPath(e, e).tni == [0, 1, 2, 3, 4, 5, 6, 7, 8, 9, 10, 11]
  {
    EmptyHits(e);
    assert SamePrime(e, e);
    EveryN();
  }

  lemma EmptyHits(e: PcSet)
    requires e == []
    ensures OpSetOf(SetEq, e, e, "normal") == Ok(OpSet(seq(12, i => i), seq(12, i => i)))
  {
    forall n | 0 <= n < 12 ensures Passes(SetEq, e, e, false, false, n) && Passes(SetEq, e, e, false, true, n) {
      assert Mode(e, n, false) == [] && Mode(e, n, true) == [];
    }
    HitsAll(SetEq, e, e, false, false, 12);
    HitsAll(SetEq, e, e, false, true, 12);
  }

  lemma EveryN()
    ensures seq(12, i => i) == [0, 1, 2, 3, 4, 5, 6, 7, 8, 9, 10, 11]
  {
  }

  /** rel_Tn: a is a transposition of b, order aside. */
  predicate RelTn(a: PcSet, b: PcSet) {
    OpPath(a, b).tn != []
  }

  /** rel_TnI: a is an inversion of b followed by a transposition, order aside. */
  predicate RelTnI(a: PcSet, b: PcSet) {
    OpPath(a, b).tni != []
  }

  lemma RelTnIff(a: PcSet, b: PcSet)
    ensures RelTn(a, b) <==> exists n :: 0 <= n < 12 && Elems(Transpose(a, n)) == Elems(b)
  {
    var o := OpPath(a, b);
    if o.tn != [] {
      OpPathTn(a, b, o.tn[0]);
    }
    if exists n :: 0 <= n < 12 && Elems(Transpose(a, n)) == Elems(b) {
      var n :| 0 <= n < 12 && Elems(Transpose(a, n)) == Elems(b);
      OpPathTn(a, b, n);
    }
  }

  lemma RelTnIIff(a: PcSet, b: PcSet)
    ensures RelTnI(a, b) <==> exists n :: 0 <= n < 12 && Elems(TnI(a, n)) == Elems(b)
  {
    var o := OpPath(a, b);
    if o.tni != [] {
      OpPathTnI(a, b, o.tni[0]);
    }
    if exists n :: 0 <= n < 12 && Elems(TnI(a, n)) == Elems(b) {
      var n :| 0 <= n < 12 && Elems(TnI(a, n)) == Elems(b);
      OpPathTnI(a, b, n);
    }
  }

  // -------------------------------------------------------------- symmetry

  /** symmetry: how many entries of the common-tone vector equal the set's size. */
  function Symmetry(a: PcSet): (r: nat)
    ensures r <= 12
  {
    Count(CommonToneVector(a), |a|)
  }

  /** The positions of t that hold v. */
  function Positions(t: seq<int>, v: int): set<int> {
    set i | 0 <= i < |t| && t[i] == v
  }

  lemma {:induction false} CountPositions(t: seq<int>, v: int)
    ensures Count(t, v) == |Positions(t, v)|
  {
    if t != [] {
      var init := t[..|t| - 1];
      CountPositions(init, v);
      var k := |t| - 1;
      if t[k] == v {
        assert Positions(t, v) == Positions(init, v) + {k};
      } else {
        assert Positions(t, v) == Positions(init, v);
      }
    }
  }

  /** A set as large as its intersection with an equally large set equals that set. */
  lemma FullIntersection(E: set<int>, F: set<int>)
    requires |E| == |F|
    ensures |E * F| == |E| <==> E == F
  {
    SubsetCard(E * F, E);
    if |E * F| == |E| {
      SubsetCard(E * F, F);
    }
  }

  /** TnI(n) maps the set onto itself exactly when entry n of cvec is the set's size. */
  lemma CvecFull(a: PcSet, n: int)
    requires 0 <= n < 12
    ensures CommonToneVector(a)[n] == |a| <==> Elems(TnI(a, n)) == Elems(a)
  {
    CommonTones(a, n);
    DistinctCard(a);
    DistinctCard(TnI(a, n));
    FullIntersection(Elems(a), Elems(TnI(a, n)));
  }

  /** symmetry counts the inversion axes that map the set onto itself. */
  lemma SymmetryAxes(a: PcSet)
    ensures Symmetry(a) == |set n | 0 <= n < 12 && Elems(TnI(a, n)) == Elems(a)|
  {
    var v := CommonToneVector(a);
    CountPositions(v, |a|);
    forall n | 0 <= n < 12 ensures v[n] == |a| <==> Elems(TnI(a, n)) == Elems(a) {
      CvecFull(a, n);
    }
    assert Positions(v, |a|) == set n | 0 <= n < 12 && Elems(TnI(a, n)) == Elems(a);
  }

  lemma {:induction false} CountZeros(k: nat)
    ensures Count(seq(k, i => 0), 0) == k
  {
    if k > 0 {
      assert seq(k, i => 0)[..k - 1] == seq(k - 1, i => 0);
      CountZeros(k - 1);
    }
  }

  /** The empty set is symmetric under all 12 inversions. */
  lemma SymmetryOfEmpty()
    ensures Symmetry([]) == 12
  {
    assert CommonToneVector([]) == seq(12, i => 0);
    CountZeros(12);
  }

  // -------------------------------------------------------- set operations

  /** Integer tokens for the elements of xs. */
  function Nums(xs: seq<int>): (ts: seq<Token>)
    ensures |ts| == |xs|
  {
    seq(|xs|, i requires 0 <= i < |xs| => Num(xs[i]))
  }

  /** union: the set built from a's elements followed by b's. */
  function Union(a: PcSet, b: PcSet): (r: PcSet)
    ensures Elems(r) == Elems(a) + Elems(b)
  {
    Dedup(a + b)
  }

  /** union is the constructor applied to the concatenation. */
  lemma UnionBuilds(a: PcSet, b: PcSet)
    ensures Build(Items(Nums(a + b))) == Ok(Union(a, b))
  {
    var xs := a + b;
    var m := ModerateAll(Nums(xs));
    assert m.Ok?;
    forall i | 0 <= i < |xs| ensures m.value[i] == xs[i] {
      assert Moderate(Nums(xs)[i]) == Ok(m.value[i]);
      ModSmall(xs[i], 12);
    }
    assert m.value == xs;
  }

  lemma {:induction false} DedupExtends(a: seq<int>, b: seq<int>)
    requires Distinct(a)
    ensures |Dedup(a + b)| >= |a| && Dedup(a + b)[..|a|] == a
  {
    if b == [] {
      assert a + b == a;
      DedupOfDistinct(a);
    } else {
      var init := b[..|b| - 1];
      assert (a + b)[..|a + b| - 1] == a + init;
      DedupExtends(a, init);
    }
  }

  /** The union keeps a, in its order, at the front. */
  lemma UnionKeepsFirst(a: PcSet, b: PcSet)
    ensures |Union(a, b)| >= |a| && Union(a, b)[..|a|] == a
  {
    DedupExtends(a, b);
  }

  /** The elements of a that are also in b, in a's order. */
  function Shared(a: seq<int>, b: seq<int>): (r: seq<int>)
    ensures forall x :: x in r <==> x in a && x in b
  {
    if a == [] then []
    else (if a[0] in b then [a[0]] else []) + Shared(a[1..], b)
  }

  /** common: the tones both sets contain (in ascending order). */
  function Common(a: PcSet, b: PcSet): (r: PcSet)
    ensures Elems(r) == Elems(a) * Elems(b)
    ensures StrictlyIncreasing(r)
  {
    Present(Shared(a, b), 12)
  }

  lemma CommonSize(a: PcSet, b: PcSet)
    ensures |Common(a, b)| == |Elems(a) * Elems(b)|
  {
    DistinctCard(Common(a, b));
  }

  /** The common tones of a set and TnI(n) of it are counted by entry n of cvec. */
  lemma CommonCvec(a: PcSet, n: int)
    requires 0 <= n < 12
    ensures |Common(a, TnI(a, n))| == CommonToneVector(a)[n]
  {
    CommonSize(a, TnI(a, n));
    CommonTones(a, n);
  }

  /** The empty set has nothing in common with anything. */
  lemma CommonOfEmpty(b: PcSet)
    ensures Common([], b) == [] && Union([], []) == []
  {
    assert Elems(Common([], b)) == {};
    DistinctCard(Common([], b));
  }

  // ----------------------------------------------------- set relationships

  predicate IsComplement(a: PcSet, b: PcSet) {
    |Union(a, b)| == 12
  }

  /** Complementary exactly when together the sets hold every pitch class. */
  lemma IsComplementIff(a: PcSet, b: PcSet)
    ensures IsComplement(a, b) <==> Elems(a) + Elems(b) == AllPcs
  {
    var u := Union(a, b);
    DistinctCard(u);
    ElemsInRange(u);
    AllPcsCard();
    SubsetCard(Elems(u), AllPcs);
  }

  lemma IsComplementOfEmpty()
    ensures IsComplement([], Chromatic)
  {
    assert [] + Chromatic == Chromatic;
    DedupOfDistinct(Chromatic);
  }

  /** is_prime_complement: b has the prime form of a's complement. */
  predicate IsPrimeComplement(a: PcSet, b: PcSet) {
    SamePrime(ComplementOf(a), b)
  }

  lemma IsPrimeComplementIff(a: PcSet, b: PcSet)
    ensures IsPrimeComplement(a, b) <==>
      exists n :: 0 <= n < 12 && (Elems(Transpose(ComplementOf(a), n)) == Elems(b)
                                || Elems(TnI(ComplementOf(a), n)) == Elems(b))
  {
    SamePrimeIff(ComplementOf(a), b);
  }

  lemma IsPrimeComplementOfEmpty(e: PcSet)
    requires e == []
    ensures IsPrimeComplement(e, Chromatic)
  {
    var c := ComplementOf(e);
    assert Elems(c) == Elems(Chromatic);
    PrimeOfMembers(c, Chromatic);
  }

  /** subset_of: b is a subset of a. */
  predicate SubsetOf(a: PcSet, b: PcSet) {
    Elems(b) <= Elems(a)
  }

  /** A set cannot contain a larger one. */
  lemma SubsetOfSize(a: PcSet, b: PcSet)
    requires SubsetOf(a, b)
    ensures |b| <= |a|
  {
    DistinctCard(a);
    DistinctCard(b);
    SubsetCard(Elems(b), Elems(a));
  }

  /** harmonize: the operations on a after which a contains b. */
  function Harmonize(a: PcSet, b: PcSet): (r: OpSet)
    ensures |a| < |b| ==> r == NullOpSet
  {
    if |a| < |b| then NullOpSet else OpSetOf(Contains, a, b, "normal").value
  }

  /** fit_in: the operations on b after which b lies inside a. */
  function FitIn(a: PcSet, b: PcSet): (r: OpSet)
    ensures |a| < |b| ==> r == NullOpSet
  {
    if |a| < |b| then NullOpSet else OpSetOf(Contains, a, b, "reverse").value
  }

  /** harmonize's Tn branch: exactly the n with b inside T(n) of a; the size guard loses nothing. */
  lemma HarmonizeTn(a: PcSet, b: PcSet, n: int)
    ensures n in Harmonize(a, b).tn <==> 0 <= n < 12 && Elems(b) <= Elems(Transpose(a, n))
  {
    if |a| < |b| && Elems(b) <= Elems(Transpose(a, n)) {
      SubsetOfSize(Transpose(a, n), b);
    }
  }

  lemma HarmonizeTnI(a: PcSet, b: PcSet, n: int)
    ensures n in Harmonize(a, b).tni <==> 0 <= n < 12 && Elems(b) <= Elems(TnI(a, n))
  {
    if |a| < |b| && Elems(b) <= Elems(TnI(a, n)) {
      SubsetOfSize(TnI(a, n), b);
    }
  }

  /** fit_in's Tn branch: exactly the n with T(n) of b inside a. */
  lemma FitInTn(a: PcSet, b: PcSet, n: int)
    ensures n in FitIn(a, b).tn <==> 0 <= n < 12 && Elems(Transpose(b, n)) <= Elems(a)
  {
    if |a| < |b| && Elems(Transpose(b, n)) <= Elems(a) {
      SubsetOfSize(a, Transpose(b, n));
    }
  }

  lemma FitInTnI(a: PcSet, b: PcSet, n: int)
    ensures n in FitIn(a, b).tni <==> 0 <= n < 12 && Elems(TnI(b, n)) <= Elems(a)
  {
    if |a| < |b| && Elems(TnI(b, n)) <= Elems(a) {
      SubsetOfSize(a, TnI(b, n));
    }
  }

  /** prime_subset_of: some transposition or inversion of b fits in a. */
  predicate PrimeSubsetOf(a: PcSet, b: PcSet) {
    Any(FitIn(a, b))
  }

  lemma PrimeSubsetOfIff(a: PcSet, b: PcSet)
    ensures PrimeSubsetOf(a, b) <==>
      exists n :: 0 <= n < 12 && (Elems(Transpose(b, n)) <= Elems(a) || Elems(TnI(b, n)) <= Elems(a))
  {
    var o := FitIn(a, b);
    if o.tn != [] {
      FitInTn(a, b, o.tn[0]);
    } else if o.tni != [] {
      FitInTnI(a, b, o.tni[0]);
    }
    if exists n :: 0 <= n < 12 && (Elems(Transpose(b, n)) <= Elems(a) || Elems(TnI(b, n)) <= Elems(a)) {
      var n :| 0 <= n < 12 && (Elems(Transpose(b, n)) <= Elems(a) || Elems(TnI(b, n)) <= Elems(a));
      FitInTn(a, b, n);
      FitInTnI(a, b, n);
    }
  }

  // ------------------------------------------------------------ similarity

  /** Rp: two sets of one size that share all tones but one. */
  function Rp(a: PcSet, b: PcSet): (r: bool)
    ensures |a| != |b| ==> !r
    ensures a == [] ==> !r
  {
    if |a| != |b| then false else |Common(a, b)| + 1 == |a|
  }

  /** Rp holds exactly when the sets have one size and a has exactly one tone b lacks. */
  lemma RpIff(a: PcSet, b: PcSet)
    ensures Rp(a, b) <==> |a| == |b| && |Elems(a) - Elems(b)| == 1
  {
    var A, B := Elems(a), Elems(b);
    assert A == (A * B) + (A - B) && (A * B) * (A - B) == {};
    CommonSize(a, b);
    DistinctCard(a);
  }

  /** Rp is symmetric. */
  lemma RpSymmetric(a: PcSet, b: PcSet)
    ensures Rp(a, b) == Rp(b, a)
  {
    assert Elems(a) * Elems(b) == Elems(b) * Elems(a);
    CommonSize(a, b);
    CommonSize(b, a);
  }

  /** Rp_path: the operations on a after which a is Rp-related to b. */
  function RpPath(a: PcSet, b: PcSet): (r: OpSet)
    ensures |a| != |b| ==> r == NullOpSet
  {
    if |a| != |b| then NullOpSet else OpSetOf(OneToneApart, a, b, "normal").value
  }

  lemma RpPathTn(a: PcSet, b: PcSet, n: int)
    ensures n in RpPath(a, b).tn <==> 0 <= n < 12 && Rp(Transpose(a, n), b)
  {
  }

  lemma RpPathTnI(a: PcSet, b: PcSet, n: int)
    ensures n in RpPath(a, b).tni <==> 0 <= n < 12 && Rp(TnI(a, n), b)
  {
  }

  /** Rp_prime: some transposition or inversion of a is Rp-related to b. */
  predicate RpPrime(a: PcSet, b: PcSet) {
    Any(RpPath(a, b))
  }

  /** Under normal polarity the test for n is the relation on T(n) or TnI(n) of a. */
  lemma PassesNormal(rel: Relation, a: PcSet, b: PcSet, n: int)
    ensures Passes(rel, a, b, false, false, n) == Holds(rel, Transpose(a, n), b)
    ensures Passes(rel, a, b, false, true, n) == Holds(rel, TnI(a, n), b)
  {
  }

  /** Under reverse polarity the test for n is the relation on a and T(n) or TnI(n) of b. */
  lemma PassesReverse(rel: Relation, a: PcSet, b: PcSet, n: int)
    ensures Passes(rel, a, b, true, false, n) == Holds(rel, a, Transpose(b, n))
    ensures Passes(rel, a, b, true, true, n) == Holds(rel, a, TnI(b, n))
  {
  }

  lemma RpPrimeIff(a: PcSet, b: PcSet)
    ensures RpPrime(a, b) <==> exists n :: 0 <= n < 12 && (Rp(Transpose(a, n), b) || Rp(TnI(a, n), b))
  {
    if |a| == |b| {
      var o := RpPath(a, b);
      assert o == OpSetOf(OneToneApart, a, b, "normal").value;
      if RpPrime(a, b) {
        AnyOf(OneToneApart, a, b, "normal");
        var n :| 0 <= n < 12 && (Passes(OneToneApart, a, b, false, false, n) || Passes(OneToneApart, a, b, false, true, n));
        PassesNormal(OneToneApart, a, b, n);
        assert Rp(Transpose(a, n), b) || Rp(TnI(a, n), b);
      }
      if exists n :: 0 <= n < 12 && (Rp(Transpose(a, n), b) || Rp(TnI(a, n), b)) {
        var n :| 0 <= n < 12 && (Rp(Transpose(a, n), b) || Rp(TnI(a, n), b));
        PassesNormal(OneToneApart, a, b, n);
        assert n in o.tn || n in o.tni;
      }
    } else {
      forall n ensures !Rp(Transpose(a, n), b) && !Rp(TnI(a, n), b) {
        assert |Transpose(a, n)| == |a| && |TnI(a, n)| == |a|;
      }
    }
  }

  lemma RpPrimeOfEmpty()
    ensures !RpPrime([], [])
  {
    RpPrimeIff([], []);
  }

  /** R0: the interval vectors of two sets of one size differ in every place. */
  predicate R0(a: PcSet, b: PcSet) {
    |a| == |b| && forall i :: 0 <= i < 6 ==> IntervalVector(a)[i] != IntervalVector(b)[i]
  }

  /** The (x, y) pairs where u and v differ, from the first k places in order. */
  function Misfits(u: seq<nat>, v: seq<nat>, k: nat): (r: seq<(nat, nat)>)
    requires k <= |u| && k <= |v|
    ensures |r| == |Differences(u, v, k)|
    ensures forall t :: 0 <= t < |r| ==> r[t].0 != r[t].1
  {
    if k == 0 then []
    else
      var init := Misfits(u, v, k - 1);
      if u[k - 1] != v[k - 1] then
        assert Differences(u, v, k) == Differences(u, v, k - 1) + {k - 1};
        init + [(u[k - 1], v[k - 1])]
      else
        assert Differences(u, v, k) == Differences(u, v, k - 1);
        init
  }

  /** The places below k where u and v differ. */
  function Differences(u: seq<nat>, v: seq<nat>, k: nat): set<int>
    requires k <= |u| && k <= |v|
  {
    set i | 0 <= i < k && u[i] != v[i]
  }

  /** R1_or_R2's results. */
  datatype Similarity = Similarity(difference2: bool, interchange: bool)

  /** What R1_or_R2 reports: two misfits between the interval vectors, and whether they are swapped. */
  function SimilarityOf(a: PcSet, b: PcSet): (r: Similarity)
    ensures r.difference2 <==> |a| == |b| && |Differences(IntervalVector(a), IntervalVector(b), 6)| == 2
    ensures r.interchange <==> r.difference2 && Interchanged(IntervalVector(a), IntervalVector(b))
  {
    if |a| != |b| then Similarity(false, false)
    else
      var u, v := IntervalVector(a), IntervalVector(b);
      var m := Misfits(u, v, 6);
      if |m| == 2 then
        MisfitsTwo(u, v, 6);
        var i, j :| 0 <= i < j < 6 && Differences(u, v, 6) == {i, j} && m == [(u[i], v[i]), (u[j], v[j])];
        InterchangedAt(u, v, i, j);
        Similarity(true, m[0].0 == m[1].1 && m[0].1 == m[1].0)
      else Similarity(false, false)
  }

  /** u and v differ in exactly two places, and there each holds the other's value. */
  predicate Interchanged(u: seq<nat>, v: seq<nat>)
    requires |u| == 6 && |v| == 6
  {
    exists i, j :: 0 <= i < j < 6 && Differences(u, v, 6) == {i, j} && u[i] == v[j] && u[j] == v[i]
  }

  /** When the two differing places are i and j, the interchange is a fact about those two. */
  lemma InterchangedAt(u: seq<nat>, v: seq<nat>, i: int, j: int)
    requires |u| == 6 && |v| == 6 && 0 <= i < j < 6 && Differences(u, v, 6) == {i, j}
    ensures Interchanged(u, v) <==> u[i] == v[j] && u[j] == v[i]
  {
    if Interchanged(u, v) {
      var i', j' :| 0 <= i' < j' < 6 && Differences(u, v, 6) == {i', j'} && u[i'] == v[j'] && u[j'] == v[i'];
      assert i' in {i, j} && j' in {i, j} && i in {i', j'};
    }
  }

  /** The misfits of no differing place are none. */
  lemma {:induction false} MisfitsNone(u: seq<nat>, v: seq<nat>, k: nat)
    requires k <= |u| && k <= |v| && |Misfits(u, v, k)| == 0
    ensures Differences(u, v, k) == {}
  {
  }

  /** A single misfit sits at the one differing place. */
  lemma {:induction false} MisfitsOne(u: seq<nat>, v: seq<nat>, k: nat)
    requires k <= |u| && k <= |v| && |Misfits(u, v, k)| == 1
    ensures exists i :: 0 <= i < k && Differences(u, v, k) == {i} && Misfits(u, v, k) == [(u[i], v[i])]
  {
    assert k > 0;
    if u[k - 1] == v[k - 1] {
      MisfitsOne(u, v, k - 1);
      assert Differences(u, v, k) == Differences(u, v, k - 1);
    } else {
      MisfitsNone(u, v, k - 1);
      assert Differences(u, v, k) == Differences(u, v, k - 1) + {k - 1};
      assert Differences(u, v, k) == {k - 1};
    }
  }

  /** Two misfits sit at the two differing places, the lower one first. */
  lemma {:induction false} MisfitsTwo(u: seq<nat>, v: seq<nat>, k: nat)
    requires k <= |u| && k <= |v| && |Misfits(u, v, k)| == 2
    ensures exists i, j :: 0 <= i < j < k && Differences(u, v, k) == {i, j}
                           && Misfits(u, v, k) == [(u[i], v[i]), (u[j], v[j])]
  {
    assert k > 0;
    if u[k - 1] == v[k - 1] {
      MisfitsTwo(u, v, k - 1);
      assert Differences(u, v, k) == Differences(u, v, k - 1);
    } else {
      MisfitsOne(u, v, k - 1);
      var i :| 0 <= i < k - 1 && Differences(u, v, k - 1) == {i} && Misfits(u, v, k - 1) == [(u[i], v[i])];
      assert Differences(u, v, k) == Differences(u, v, k - 1) + {k - 1};
      assert Differences(u, v, k) == {i, k - 1};
      assert Misfits(u, v, k) == [(u[i], v[i]), (u[k - 1], v[k - 1])];
    }
  }

  /** R1_or_R2: collects the misfits of the two interval vectors in a loop. */
  method R1OrR2(a: PcSet, b: PcSet) returns (results: Similarity)
    ensures results == SimilarityOf(a, b)
  {
    results := Similarity(false, false);
    if |a| != |b| {
      return;
    }
    var u := Ivec(a);
    var v := Ivec(b);
    var misfits: seq<(nat, nat)> := [];
    for i := 0 to 6
      invariant misfits == Misfits(u, v, i)
    {
      if u[i] != v[i] {
        misfits := misfits + [(u[i], v[i])];
      }
    }
    if |misfits| == 2 {
      results := results.(difference2 := true);
      var first, second := misfits[0], misfits[1];
      if first.0 == second.1 && first.1 == second.0 {
        results := results.(interchange := true);
      }
    }
  }

  /** R1: the interval vectors differ in two places whose values are interchanged. */
  predicate R1(a: PcSet, b: PcSet) {
    SimilarityOf(a, b).interchange
  }

  /** R2: the interval vectors differ in two places, not by interchange. */
  predicate R2(a: PcSet, b: PcSet) {
    SimilarityOf(a, b).difference2 && !SimilarityOf(a, b).interchange
  }

  /** Zpair: the same interval vector. */
  predicate Zpair(a: PcSet, b: PcSet) {
    IntervalVector(a) == IntervalVector(b)
  }

  /** R1 and R2 exclude each other, and either needs one size and exactly two misfit places. */
  lemma MaximumSimilarity(a: PcSet, b: PcSet)
    ensures !(R1(a, b) && R2(a, b))
    ensures R1(a, b) || R2(a, b) ==>
      |a| == |b| && |Differences(IntervalVector(a), IntervalVector(b), 6)| == 2
  {
  }

  /** A Z pair is related by neither R0, R1 nor R2. */
  lemma ZpairNotSimilar(a: PcSet, b: PcSet)
    requires Zpair(a, b)
    ensures !R0(a, b) && !R1(a, b) && !R2(a, b)
  {
    var u := IntervalVector(a);
    assert u[0] == IntervalVector(b)[0];
    assert Differences(u, u, 6) == {};
  }

  /** The two empty sets: a Z pair, and none of the other similarity relations. */
  lemma SimilarityOfEmpty()
    ensures Zpair([], []) && !R0([], []) && !R1([], []) && !R2([], [])
  {
    ZpairNotSimilar([], []);
  }
}
