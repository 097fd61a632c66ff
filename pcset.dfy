/**
 * The pitch class set value type: construction from tokens, rendering, the
 * fundamental operators (invert, transpose), the set operations (complement,
 * reverse, sort, shift, zero), the 12-bit encoding, the normal / reduced /
 * prime canonical forms and the interval and common-tone vectors.
 *
 * A set is an ordered sequence of pitch classes 0..11 without duplicates.
 * Every operation returns a new set, so sets are values here.
 */
module PcSets {
  import opened Wrappers

  // ---------------------------------------------------------------- the type

  predicate InRange(s: seq<int>) {
    forall i :: 0 <= i < |s| ==> 0 <= s[i] < 12
  }

  predicate Distinct(s: seq<int>) {
    forall i, j :: 0 <= i < j < |s| ==> s[i] != s[j]
  }

  predicate IsPcSet(s: seq<int>) {
    InRange(s) && Distinct(s)
  }

  /** An ordered pitch class set: elements in 0..11, no element twice. */
  type PcSet = s: seq<int> | IsPcSet(s) witness []

  /** The elements of a sequence, order forgotten. */
  function Elems(s: seq<int>): set<int> {
    set x | x in s
  }

  predicate StrictlyIncreasing(s: seq<int>) {
    forall i, j :: 0 <= i < j < |s| ==> s[i] < s[j]
  }

  // ------------------------------------------------- modular arithmetic help

  lemma MulAtLeast(a: int, m: int)
    requires m > 0
    ensures a >= 1 ==> a * m >= m
    ensures a <= -1 ==> a * m <= -m
  {
    if a >= 1 {
      assert a * m == m + (a - 1) * m;
      assert (a - 1) * m >= 0;
    } else if a <= -1 {
      assert a * m == -m + (a + 1) * m;
      assert (a + 1) * m <= 0;
    }
  }

  /** Euclidean division has a unique remainder. */
  lemma ModUnique(x: int, m: int, q: int, r: int)
    requires m > 0 && 0 <= r < m && x == q * m + r
    ensures x % m == r
  {
    var d := x / m;
    assert x == d * m + x % m;
    assert (q - d) * m == x % m - r;
    MulAtLeast(q - d, m);
  }

  /** Reducing one summand modulo 12 first does not change the sum modulo 12. */
  lemma ModAddMod(x: int, y: int)
    ensures (x % 12 + y) % 12 == (x + y) % 12
  {
    ModUnique(x + y, 12, x / 12 + (x % 12 + y) / 12, (x % 12 + y) % 12);
  }

  /** The same for a subtracted term. */
  lemma ModNegMod(x: int, y: int)
    ensures (y - x % 12) % 12 == (y - x) % 12
  {
    ModUnique(y - x % 12, 12, (y - x) / 12 + x / 12, (y - x) % 12);
  }

  lemma ModSmall(x: int, m: int)
    requires 0 <= x < m
    ensures x % m == x
  {
    ModUnique(x, m, 0, x);
  }

  // ------------------------------------------------ construction from tokens

  /** One item of a definition: an integer, or one character of a spec string. */
  datatype Token = Num(n: int) | Chr(c: char)

  /** What a set is built from: an iterable of tokens, or something that is not iterable. */
  datatype Definition = Items(tokens: seq<Token>) | NonIterable

  datatype DefinitionError = IllegalCharacter(ch: char) | NonIterableDef

  predicate IsSpecChar(c: char) {
    '0' <= c <= '9' || c == 'A' || c == 'B'
  }

  /** The pitch class a token stands for: integers mod 12, digits by value, 'A' = 10, 'B' = 11. */
  function Moderate(t: Token): (r: Result<int, DefinitionError>)
    ensures r.Ok? ==> 0 <= r.value < 12
    ensures t.Num? ==> r.Ok? && (r.value - t.n) % 12 == 0
    ensures t.Chr? ==> (r.Ok? <==> IsSpecChar(t.c))
    ensures t.Chr? && r.Err? ==> r.error == IllegalCharacter(t.c)
    ensures t.Chr? && '0' <= t.c <= '9' ==> r == Ok(t.c as int - '0' as int)
    ensures t == Chr('A') ==> r == Ok(10)
    ensures t == Chr('B') ==> r == Ok(11)
  {
    match t
    case Num(n) => Ok(n % 12)
    case Chr(c) =>
      if '0' <= c <= '9' then Ok(c as int - '0' as int)
      else if c == 'A' then Ok(10)
      else if c == 'B' then Ok(11)
      else Err(IllegalCharacter(c))
  }

  /** Moderates every token in order; the first illegal token decides the error. */
  function ModerateAll(ts: seq<Token>): (r: Result<seq<int>, DefinitionError>)
    ensures r.Ok? ==> |r.value| == |ts| && InRange(r.value)
    ensures r.Ok? ==> forall i :: 0 <= i < |ts| ==> Moderate(ts[i]) == Ok(r.value[i])
    ensures r.Err? ==> exists i :: 0 <= i < |ts| && Moderate(ts[i]) == Err(r.error)
                                   && forall j :: 0 <= j < i ==> Moderate(ts[j]).Ok?
    ensures r.Ok? <==> forall i :: 0 <= i < |ts| ==> Moderate(ts[i]).Ok?
  {
    if ts == [] then Ok([])
    else
      match Moderate(ts[0])
      case Err(e) => Err(e)
      case Ok(x) =>
        match ModerateAll(ts[1..])
        case Err(e) =>
          assert exists i :: 0 <= i < |ts| - 1 && Moderate(ts[1..][i]) == Err(e)
                             && forall j :: 0 <= j < i ==> Moderate(ts[1..][j]).Ok?;
          var i :| 0 <= i < |ts| - 1 && Moderate(ts[1..][i]) == Err(e)
                   && forall j :: 0 <= j < i ==> Moderate(ts[1..][j]).Ok?;
          assert Moderate(ts[i + 1]) == Err(e);
          assert forall j :: 0 <= j < i + 1 ==> Moderate(ts[j]).Ok? by {
            forall j | 0 <= j < i + 1 ensures Moderate(ts[j]).Ok? {
              if j > 0 { assert ts[j] == ts[1..][j - 1]; }
            }
          }
          Err(e)
        case Ok(xs) =>
          assert forall i :: 0 <= i < |ts| ==> Moderate(ts[i]) == Ok(([x] + xs)[i]) by {
            forall i | 0 <= i < |ts| ensures Moderate(ts[i]) == Ok(([x] + xs)[i]) {
              if i > 0 { assert ts[i] == ts[1..][i - 1]; }
            }
          }
          Ok([x] + xs)
  }

  /** Index of the first occurrence of x in s. */
  function FirstIndex(s: seq<int>, x: int): (k: nat)
    requires x in s
    ensures k < |s| && s[k] == x
    ensures forall j :: 0 <= j < k ==> s[j] != x
  {
    if s[0] == x then 0 else 1 + FirstIndex(s[1..], x)
  }

  /**
   * Duplicate removal that keeps first occurrences: each element is appended
   * unless it is already present (the constructor's append loop).
   */
  function Dedup(s: seq<int>): (r: seq<int>)
    ensures Distinct(r)
    ensures forall x :: x in r <==> x in s
    ensures |r| <= |s|
    ensures InRange(s) ==> InRange(r)
  {
    if s == [] then []
    else
      var d := Dedup(s[..|s| - 1]);
      assert forall x :: x in s <==> x in s[..|s| - 1] || x == s[|s| - 1] by {
        assert s == s[..|s| - 1] + [s[|s| - 1]];
      }
      if s[|s| - 1] in d then d else d + [s[|s| - 1]]
  }

  lemma {:induction false} FirstIndexOfPrefix(p: seq<int>, y: int, x: int)
    requires x in p
    ensures FirstIndex(p + [y], x) == FirstIndex(p, x)
  {
    if p[0] != x {
      assert (p + [y])[1..] == p[1..] + [y];
      FirstIndexOfPrefix(p[1..], y, x);
    }
  }

  lemma {:induction false} FirstIndexOfLast(p: seq<int>, y: int)
    requires y !in p
    ensures FirstIndex(p + [y], y) == |p|
  {
    if p != [] {
      assert (p + [y])[1..] == p[1..] + [y];
      FirstIndexOfLast(p[1..], y);
    }
  }

  /** Dedup keeps the elements in the order of their first occurrence. */
  lemma {:induction false} DedupKeepsFirstOccurrenceOrder(s: seq<int>)
    ensures forall i, j :: 0 <= i < j < |Dedup(s)| ==>
              FirstIndex(s, Dedup(s)[i]) < FirstIndex(s, Dedup(s)[j])
  {
    if s != [] {
      var p, y := s[..|s| - 1], s[|s| - 1];
      assert s == p + [y];
      DedupKeepsFirstOccurrenceOrder(p);
      var d := Dedup(p);
      forall x | x in d ensures FirstIndex(s, x) == FirstIndex(p, x) {
        FirstIndexOfPrefix(p, y, x);
      }
      if y !in d {
        FirstIndexOfLast(p, y);
        var r := Dedup(s);
        assert r == d + [y];
        forall i, j | 0 <= i < j < |r| ensures FirstIndex(s, r[i]) < FirstIndex(s, r[j]) {
          if j == |d| {
            assert r[i] == d[i];
          } else {
            assert r[i] == d[i] && r[j] == d[j];
          }
        }
      }
    }
  }

  lemma {:induction false} DedupOfDistinct(s: seq<int>)
    requires Distinct(s)
    ensures Dedup(s) == s
  {
    if s != [] {
      var p := s[..|s| - 1];
      DedupOfDistinct(p);
      assert s[|s| - 1] !in p;
      assert s == p + [s[|s| - 1]];
    }
  }

  /** What the constructor produces from a definition. */
  function Build(d: Definition): (r: Result<PcSet, DefinitionError>)
    ensures d.NonIterable? ==> r == Err(NonIterableDef)
    ensures d.Items? ==> (r.Ok? <==> ModerateAll(d.tokens).Ok?)
  {
    match d
    case NonIterable => Err(NonIterableDef)
    case Items(ts) =>
      match ModerateAll(ts)
      case Err(e) => Err(e)
      case Ok(xs) =>
        var p: PcSet := Dedup(xs);
        Ok(p)
  }

  /**
   * The constructor: moderates every token, then appends each value to the
   * definition unless it is already there.
   */
  method FromDefinition(d: Definition) returns (r: Result<PcSet, DefinitionError>)
    ensures r == Build(d)
  {
    if d.NonIterable? {
      return Err(NonIterableDef);
    }
    var redefinition := ModerateAll(d.tokens);
    if redefinition.Err? {
      return Err(redefinition.error);
    }
    var xs := redefinition.value;
    var definition: seq<int> := [];
    for i := 0 to |xs|
      invariant definition == Dedup(xs[..i])
    {
      assert xs[..i + 1][..i] == xs[..i];
      if xs[i] !in definition {
        definition := definition + [xs[i]];
      }
    }
    assert xs[..|xs|] == xs;
    r := Ok(definition);
  }

  /** A built set holds exactly the values of the definition's tokens. */
  lemma BuildElems(ts: seq<Token>, x: int)
    requires Build(Items(ts)).Ok?
    ensures x in Build(Items(ts)).value <==>
              exists i :: 0 <= i < |ts| && Moderate(ts[i]) == Ok(x)
  {
    var xs := ModerateAll(ts).value;
    if x in Build(Items(ts)).value {
      var i := FirstIndex(xs, x);
      assert Moderate(ts[i]) == Ok(x);
    }
    if i :| 0 <= i < |ts| && Moderate(ts[i]) == Ok(x) {
      assert xs[i] == x;
    }
  }

  // ---------------------------------------------------------------- rendering

  function PcChar(x: int): char
    requires 0 <= x < 12
  {
    if x < 10 then ('0' as int + x) as char else if x == 10 then 'A' else 'B'
  }

  lemma PcCharModerate(x: int)
    requires 0 <= x < 12
    ensures Moderate(Chr(PcChar(x))) == Ok(x)
  {
  }

  /** The spec string of a set: one character per element, '0'..'9', 'A', 'B'. */
  function Str(s: PcSet): (r: string)
    ensures |r| == |s|
    ensures forall i :: 0 <= i < |s| ==> r[i] == PcChar(s[i]) && IsSpecChar(r[i])
  {
    if s == [] then "" else [PcChar(s[0])] + Str(s[1..])
  }

  /** __str__(): the loop that appends one character per element. */
  method Render(s: PcSet) returns (output: string)
    ensures output == Str(s)
  {
    output := "";
    for i := 0 to |s|
      invariant output == Str(s[..i])
    {
      var x := s[i];
      StrSnoc(s, i);
      if x < 10 {
        output := output + [('0' as int + x) as char];
      } else if x == 10 {
        output := output + "A";
      } else {
        // x == 11, as the elements of a set lie below 12
        output := output + "B";
      }
    }
    assert s[..|s|] == s;
  }

  /** Printing one more element appends its character. */
  lemma StrSnoc(s: PcSet, i: int)
    requires 0 <= i < |s|
    ensures IsPcSet(s[..i]) && IsPcSet(s[..i + 1])
    ensures Str(s[..i + 1]) == Str(s[..i]) + [PcChar(s[i])]
  {
    var a, b := Str(s[..i + 1]), Str(s[..i]) + [PcChar(s[i])];
    assert |a| == |b|;
    forall k | 0 <= k < |a| ensures a[k] == b[k] {
    }
  }

  /** The tokens a spec string is iterated into. */
  function Chars(spec: string): (ts: seq<Token>)
    ensures |ts| == |spec| && forall i :: 0 <= i < |spec| ==> ts[i] == Chr(spec[i])
  {
    seq(|spec|, i requires 0 <= i < |spec| => Chr(spec[i]))
  }

  /** Parsing a duplicate-free spec string and printing it again gives the string back. */
  lemma ParseThenPrint(spec: string)
    requires forall i :: 0 <= i < |spec| ==> IsSpecChar(spec[i])
    requires forall i, j :: 0 <= i < j < |spec| ==> spec[i] != spec[j]
    ensures Build(Items(Chars(spec))).Ok?
    ensures Str(Build(Items(Chars(spec))).value) == spec
  {
    var ts := Chars(spec);
    assert forall i :: 0 <= i < |ts| ==> Moderate(ts[i]).Ok?;
    var xs := ModerateAll(ts).value;
    forall i | 0 <= i < |xs| ensures PcChar(xs[i]) == spec[i] {
      assert Moderate(Chr(spec[i])) == Ok(xs[i]);
    }
    assert Distinct(xs) by {
      forall i, j | 0 <= i < j < |xs| ensures xs[i] != xs[j] {
        assert PcChar(xs[i]) == spec[i] && PcChar(xs[j]) == spec[j];
      }
    }
    DedupOfDistinct(xs);
  }

  /** Printing a set and parsing the string again gives the same set. */
  lemma {:induction false} PrintThenParse(s: PcSet)
    ensures Build(Items(Chars(Str(s)))) == Ok(s)
  {
    var ts := Chars(Str(s));
    forall i | 0 <= i < |ts| ensures Moderate(ts[i]) == Ok(s[i]) {
      PcCharModerate(s[i]);
    }
    var m := ModerateAll(ts);
    assert m.Ok?;
    assert m.value == s;
    DedupOfDistinct(s);
  }

  /** The length of a set (the number of its elements). */
  function Len(s: PcSet): (r: nat)
    ensures r == |Elems(s)|
  {
    DistinctCard(s);
    |s|
  }

  lemma {:induction false} DistinctCard(s: seq<int>)
    requires Distinct(s)
    ensures |Elems(s)| == |s|
  {
    if s != [] {
      var p := s[..|s| - 1];
      DistinctCard(p);
      assert s == p + [s[|s| - 1]];
      assert Elems(s) == Elems(p) + {s[|s| - 1]};
      assert s[|s| - 1] !in Elems(p);
    }
  }

  // ------------------------------------------------- invert and transpose

  /** Transposition by n: every element moves up by n, modulo 12. */
  function Transpose(s: PcSet, n: int): (r: PcSet)
    ensures |r| == |s|
    ensures forall i :: 0 <= i < |s| ==> 0 <= r[i] < 12 && (r[i] - s[i]) % 12 == n % 12
  {
    var t := seq(|s|, i requires 0 <= i < |s| => (s[i] + n) % 12);
    assert Distinct(t) by {
      forall i, j | 0 <= i < j < |s| ensures t[i] != t[j] {
        ModAddMod(s[i] + n, -n);
        ModAddMod(s[j] + n, -n);
        ModSmall(s[i], 12);
        ModSmall(s[j], 12);
      }
    }
    forall i | 0 <= i < |s| ensures (t[i] - s[i]) % 12 == n % 12 {
      ModAddMod(s[i] + n, -s[i]);
    }
    t
  }

  /** Inversion: every element e becomes (12 - e) mod 12. */
  function Invert(s: PcSet): (r: PcSet)
    ensures |r| == |s|
    ensures forall i :: 0 <= i < |s| ==> 0 <= r[i] < 12 && (s[i] + r[i]) % 12 == 0
  {
    var t := seq(|s|, i requires 0 <= i < |s| => (12 - s[i]) % 12);
    forall i | 0 <= i < |s| ensures t[i] == if s[i] == 0 then 0 else 12 - s[i] {
      InvertAt(s[i]);
    }
    assert Distinct(t) by {
      forall i, j | 0 <= i < j < |s| ensures t[i] != t[j] {
        assert s[i] != s[j];
      }
    }
    t
  }

  /** (12 - e) mod 12 without the modulus. */
  lemma InvertAt(e: int)
    requires 0 <= e < 12
    ensures (12 - e) % 12 == if e == 0 then 0 else 12 - e
  {
    if e == 0 {
      ModSmall(0, 12);
      assert 12 % 12 == 0;
    } else {
      ModSmall(12 - e, 12);
    }
  }

  /** Inversion followed by transposition by n. */
  function TnI(s: PcSet, n: int): (r: PcSet)
    ensures |r| == |s|
    ensures forall i :: 0 <= i < |s| ==> (s[i] + r[i]) % 12 == n % 12
  {
    Transpose(Invert(s), n)
  }

  /** Inversion about the axis through x and y: x and y swap places. */
  function Ixy(s: PcSet, x: int, y: int): (r: PcSet)
    ensures |r| == |s|
    ensures forall i :: 0 <= i < |s| && s[i] == x % 12 ==> r[i] == y % 12
    ensures forall i :: 0 <= i < |s| && s[i] == y % 12 ==> r[i] == x % 12
  {
    var r := TnI(s, x + y);
    forall i | 0 <= i < |s| && s[i] == x % 12 ensures r[i] == y % 12 {
      IxyStep(x, y, r[i]);
    }
    forall i | 0 <= i < |s| && s[i] == y % 12 ensures r[i] == x % 12 {
      IxyStep(y, x, r[i]);
    }
    r
  }

  lemma IxyStep(x: int, y: int, e: int)
    requires 0 <= e < 12 && (x % 12 + e) % 12 == (x + y) % 12
    ensures e == y % 12
  {
    ModAddMod(x, e);
    ModAddMod(x + e, -x);
    ModAddMod(x + y, -x);
    ModSmall(e, 12);
  }

  lemma TransposeZero(s: PcSet)
    ensures Transpose(s, 0) == s
  {
    forall i | 0 <= i < |s| ensures Transpose(s, 0)[i] == s[i] {
      ModSmall(s[i], 12);
    }
  }

  /** Transpositions compose by adding their intervals. */
  lemma TransposeCompose(s: PcSet, m: int, n: int)
    ensures Transpose(Transpose(s, m), n) == Transpose(s, m + n)
  {
    forall i | 0 <= i < |s| ensures Transpose(Transpose(s, m), n)[i] == Transpose(s, m + n)[i] {
      ModAddMod(s[i] + m, n);
    }
  }

  /** Only the interval modulo 12 matters. */
  lemma TransposeModulo(s: PcSet, n: int)
    ensures Transpose(s, n) == Transpose(s, n % 12)
  {
    forall i | 0 <= i < |s| ensures Transpose(s, n)[i] == Transpose(s, n % 12)[i] {
      ModAddMod(n, s[i]);
    }
  }

  /** Inversion undoes itself. */
  lemma InvertInvolution(s: PcSet)
    ensures Invert(Invert(s)) == s
  {
    forall i | 0 <= i < |s| ensures Invert(Invert(s))[i] == s[i] {
      ModNegMod(12 - s[i], 12);
      ModSmall(s[i], 12);
    }
  }

  /** Inverting a transposition by n is transposing the inversion by -n. */
  lemma InvertTranspose(s: PcSet, n: int)
    ensures Invert(Transpose(s, n)) == Transpose(Invert(s), -n)
  {
    var a, b := Invert(Transpose(s, n)), Transpose(Invert(s), -n);
    forall i | 0 <= i < |s| ensures a[i] == b[i] {
      InvertTransposeAt(s[i], n, Transpose(s, n)[i], Invert(s)[i]);
    }
    assert |a| == |b|;
  }

  lemma InvertTransposeAt(e: int, n: int, t: int, v: int)
    requires t == (e + n) % 12 && v == (12 - e) % 12
    ensures (12 - t) % 12 == (v - n) % 12
  {
    ModNegMod(e + n, 12);
    ModAddMod(12 - e, -n);
  }

  /** TnI undoes itself. */
  lemma TnIInvolution(s: PcSet, n: int)
    ensures TnI(TnI(s, n), n) == s
  {
    InvertTranspose(Invert(s), n);
    InvertInvolution(s);
    TransposeCompose(s, -n, n);
    TransposeZero(s);
  }

  // ----------------------------------------------------------- reverse, sort

  /** The elements in the opposite order. */
  function Reverse(s: PcSet): (r: PcSet)
    ensures |r| == |s|
    ensures forall i :: 0 <= i < |s| ==> r[i] == s[|s| - 1 - i]
  {
    if s == [] then []
    else
      var t := Reverse(s[1..]);
      assert s[0] !in t by {
        forall i | 0 <= i < |t| ensures t[i] != s[0] {
          assert t[i] == s[|s| - 1 - i];
        }
      }
      t + [s[0]]
  }

  lemma {:induction false} ReverseInvolution(s: PcSet)
    ensures Reverse(Reverse(s)) == s
  {
  }

  /** The elements of s below k, in ascending order. */
  function Present(s: seq<int>, k: nat): (r: seq<int>)
    requires k <= 12
    ensures StrictlyIncreasing(r) && InRange(r) && Distinct(r)
    ensures forall x :: x in r <==> 0 <= x < k && x in s
    ensures forall i :: 0 <= i < |r| ==> r[i] < k
  {
    if k == 0 then [] else Present(s, k - 1) + (if k - 1 in s then [k - 1] else [])
  }

  /** The elements of s in ascending order. */
  function Sort(s: PcSet): (r: PcSet)
    ensures StrictlyIncreasing(r)
    ensures Elems(r) == Elems(s)
    ensures |r| == |s|
  {
    PresentLength(s);
    Present(s, 12)
  }

  lemma {:induction false} PresentLength(s: PcSet)
    ensures |Present(s, 12)| == |s|
  {
    var r := Present(s, 12);
    assert Elems(r) == Elems(s);
    DistinctCard(r);
    DistinctCard(s);
  }

  /** Two ascending sequences with the same elements are equal. */
  lemma {:induction false} AscendingUnique(a: seq<int>, b: seq<int>)
    requires StrictlyIncreasing(a) && StrictlyIncreasing(b)
    requires Elems(a) == Elems(b)
    ensures a == b
  {
    DistinctCard(a);
    DistinctCard(b);
    if a != [] {
      assert a[0] in Elems(b);
      assert b != [];
      assert b[0] in Elems(a);
      assert a[0] == b[0];
      assert Elems(a[1..]) == Elems(a) - {a[0]} by {
        assert a == [a[0]] + a[1..];
      }
      assert Elems(b[1..]) == Elems(b) - {b[0]} by {
        assert b == [b[0]] + b[1..];
      }
      AscendingUnique(a[1..], b[1..]);
      assert a == [a[0]] + a[1..];
      assert b == [b[0]] + b[1..];
    }
  }

  /** sort() is the only ascending arrangement of the set's elements. */
  lemma SortUnique(s: PcSet, t: seq<int>)
    requires StrictlyIncreasing(t) && Elems(t) == Elems(s)
    ensures t == Sort(s)
  {
    AscendingUnique(t, Sort(s));
  }

  /** An ascending set is its own sort. */
  lemma SortOfAscending(s: PcSet)
    requires StrictlyIncreasing(s)
    ensures Sort(s) == s
  {
    AscendingUnique(s, Sort(s));
  }

  // --------------------------------------------------------------- complement

  /** The pitch classes below k that are not in s, ascending. */
  function Absent(s: seq<int>, k: nat): (r: seq<int>)
    requires k <= 12
    ensures StrictlyIncreasing(r) && InRange(r) && Distinct(r)
    ensures forall x :: x in r <==> 0 <= x < k && x !in s
    ensures forall i :: 0 <= i < |r| ==> r[i] < k
  {
    if k == 0 then [] else Absent(s, k - 1) + (if k - 1 in s then [] else [k - 1])
  }

  /** Every pitch class below k is either present or absent. */
  lemma {:induction false} AbsentLength(s: seq<int>, k: nat)
    requires k <= 12
    ensures |Absent(s, k)| + |Present(s, k)| == k
  {
    if k > 0 {
      AbsentLength(s, k - 1);
      var a, p := Absent(s, k - 1), Present(s, k - 1);
      if k - 1 in s {
        assert Absent(s, k) == a + [] && Present(s, k) == p + [k - 1];
      } else {
        assert Absent(s, k) == a + [k - 1] && Present(s, k) == p + [];
      }
    }
  }

  /** The complement: every pitch class of 0..11 not in s, in ascending order. */
  method Complement(s: PcSet) returns (r: PcSet)
    ensures r == Absent(s, 12)
    ensures forall x :: x in r <==> 0 <= x < 12 && x !in s
    ensures StrictlyIncreasing(r)
    ensures |r| + |s| == 12
  {
    var anti: seq<int> := [];
    for note := 0 to 12
      invariant anti == Absent(s, note)
    {
      if note !in s {
        anti := anti + [note];
      }
    }
    r := anti;
    AbsentLength(s, 12);
    PresentLength(s);
  }

  /** The complement as a value, for use in specifications. */
  function ComplementOf(s: PcSet): (r: PcSet)
    ensures forall x :: x in r <==> 0 <= x < 12 && x !in s
    ensures |r| + |s| == 12
  {
    AbsentLength(s, 12);
    PresentLength(s);
    Absent(s, 12)
  }

  lemma {:induction false} AbsentOfAbsent(s: PcSet, k: nat)
    requires k <= 12
    ensures Absent(Absent(s, 12), k) == Present(s, k)
  {
    if k > 0 {
      AbsentOfAbsent(s, k - 1);
    }
  }

  /** The complement of the complement is the sorted set. */
  lemma ComplementInvolution(s: PcSet)
    ensures ComplementOf(ComplementOf(s)) == Sort(s)
  {
    AbsentOfAbsent(s, 12);
  }

  // ------------------------------------------------------- shift and zero

  /** s rotated right by k places: the last k elements move to the front. */
  function RotateRight(s: seq<int>, k: nat): (r: seq<int>)
    requires k <= |s|
    ensures |r| == |s|
    ensures forall i :: 0 <= i < |s| ==> r[i] == if i < k then s[i + |s| - k] else s[i - k]
  {
    s[|s| - k..] + s[..|s| - k]
  }

  /** Moving the last element to the front rotates right by one more place. */
  lemma RotateRightStep(s: seq<int>, x: nat)
    requires x < |s|
    ensures RotateRight(s, x + 1) == [RotateRight(s, x)[|s| - 1]] + RotateRight(s, x)[..|s| - 1]
  {
    var size := |s|;
    var copy := RotateRight(s, x);
    assert copy[|copy| - 1] == s[size - x - 1];
    assert copy[..|copy| - 1] == s[size - x..] + s[..size - x - 1];
    assert [s[size - x - 1]] + s[size - x..] == s[size - x - 1..];
  }

  /** Distinct positions of a rotation come from distinct positions of s. */
  lemma {:induction false} RotateRightApart(s: PcSet, k: nat, i: int, j: int)
    requires k <= |s| && 0 <= i < j < |s|
    ensures RotateRight(s, k)[i] != RotateRight(s, k)[j]
  {
    var m := |s| - k;
    var i' := if i < k then i + m else i - k;
    var j' := if j < k then j + m else j - k;
    assert RotateRight(s, k)[i] == s[i'] && RotateRight(s, k)[j] == s[j'];
    assert i' != j';
  }

  lemma RotateRightPcSet(s: PcSet, k: nat)
    requires k <= |s|
    ensures IsPcSet(RotateRight(s, k))
    ensures Elems(RotateRight(s, k)) == Elems(s)
  {
    var r := RotateRight(s, k);
    forall i, j | 0 <= i < j < |r| ensures r[i] != r[j] {
      RotateRightApart(s, k, i, j);
    }
    forall i | 0 <= i < |r| ensures 0 <= r[i] < 12 && r[i] in s {
      RotateRightFrom(s, k, i);
    }
    forall x | x in s ensures x in r {
      RotateRightTo(s, k, x);
    }
  }

  lemma {:induction false} RotateRightFrom(s: PcSet, k: nat, i: int)
    requires k <= |s| && 0 <= i < |s|
    ensures 0 <= RotateRight(s, k)[i] < 12 && RotateRight(s, k)[i] in s
  {
    var i' := if i < k then i + |s| - k else i - k;
    assert RotateRight(s, k)[i] == s[i'];
  }

  lemma {:induction false} RotateRightTo(s: PcSet, k: nat, x: int)
    requires k <= |s| && x in s
    ensures x in RotateRight(s, k)
  {
    var m := |s| - k;
    var r := RotateRight(s, k);
    var i :| 0 <= i < |s| && s[i] == x;
    if i < m {
      assert r[i + k] == s[i];
    } else {
      assert r[i - m] == s[i];
    }
  }


  /**
   * shift(n): the set rotated right by n modulo its length; a set of fewer
   * than two elements is returned unchanged.
   */
  function Rotation(s: PcSet, n: int): (r: PcSet)
    ensures |r| == |s| && Elems(r) == Elems(s)
    ensures |s| <= 1 ==> r == s
  {
    if |s| <= 1 then s
    else
      var k := n % |s|;
      RotateRightPcSet(s, k);
      RotateRight(s, k)
  }

  /** shift(n) moves element i to position (i + n) mod len. */
  lemma RotationMoves(s: PcSet, n: int, i: int)
    requires 0 <= i < |s|
    ensures Rotation(s, n)[(i + n) % |s|] == s[i]
  {
    if |s| <= 1 {
      ModUnique(i + n, 1, i + n, 0);
    } else {
      RotationIndex(|s|, i, n);
    }
  }

  /** Position i + n modulo m, for i already below m. */
  lemma RotationIndex(m: int, i: int, n: int)
    requires 0 <= i < m
    ensures (i + n) % m == if i + n % m < m then i + n % m else i + n % m - m
  {
    var k := n % m;
    assert n == (n / m) * m + k;
    if i + k < m {
      ModUnique(i + n, m, n / m, i + k);
    } else {
      assert i + n == (n / m + 1) * m + (i + k - m);
      ModUnique(i + n, m, n / m + 1, i + k - m);
    }
  }

  /** shift(n) by repeatedly moving the last element to the front. */
  method Shift(s: PcSet, n: int) returns (r: PcSet)
    ensures r == Rotation(s, n)
  {
    var size := |s|;
    var copy: seq<int> := s;
    if size > 1 {
      var uptimes := n % size;
      if uptimes > 0 {
        for x := 0 to uptimes
          invariant copy == RotateRight(s, x)
        {
          RotateRightStep(s, x);
          copy := [copy[|copy| - 1]] + copy[..|copy| - 1];
        }
      }
      RotateRightPcSet(s, uptimes);
    }
    r := copy;
  }

  /** Element k of the set is the last element of shift(len - 1 - k). */
  lemma ShiftLast(s: PcSet, k: nat)
    requires k < |s|
    ensures Rotation(s, |s| - 1 - k)[|s| - 1] == s[k]
  {
    if |s| > 1 {
      ModSmall(|s| - 1 - k, |s|);
      assert Rotation(s, |s| - 1 - k) == RotateRight(s, |s| - 1 - k);
    } else {
      assert k == 0 && Rotation(s, 0) == s;
    }
  }

  /** zero(): the transposition that puts the first element on 0; the empty set stays empty. */
  function Zero(s: PcSet): (r: PcSet)
    ensures |r| == |s|
    ensures s != [] ==> r[0] == 0
    ensures s != [] ==> forall i :: 0 <= i < |s| ==> (r[i] - s[i] + s[0]) % 12 == 0
  {
    if s == [] then []
    else
      var r := Transpose(s, -s[0]);
      ModSmall(0, 12);
      forall i | 0 <= i < |s| ensures (r[i] - s[i] + s[0]) % 12 == 0 {
        ModAddMod(r[i] - s[i], s[0]);
      }
      r
  }

  /** Transposing first does not change what zero() gives. */
  lemma ZeroTranspose(s: PcSet, n: int)
    ensures Zero(Transpose(s, n)) == Zero(s)
  {
    if s != [] {
      var t := Transpose(s, n);
      TransposeCompose(s, n, -t[0]);
      TransposeModulo(s, n - t[0]);
      TransposeModulo(s, -s[0]);
      ModNegMod(s[0] + n, n);
    }
  }

  /** zero() is a transposition: Zero(s) is s transposed down by its first element. */
  lemma ZeroIsTransposition(s: PcSet)
    requires s != []
    ensures Zero(s) == Transpose(s, -s[0])
  {
  }

  // ------------------------------------------------------------ the encoding

  function Pow2(k: nat): (r: nat)
    ensures r >= 1
  {
    if k == 0 then 1 else 2 * Pow2(k - 1)
  }

  /** The bit mask of the members of E below k: bit x is set iff x is in E. */
  function Mask(E: set<int>, k: nat): (r: nat)
    ensures r < Pow2(k)
  {
    if k == 0 then 0 else Mask(E, k - 1) + (if k - 1 in E then Pow2(k - 1) else 0)
  }

  lemma {:induction false} MaskInsert(E: set<int>, x: int, k: nat)
    requires x !in E && 0 <= x
    ensures Mask(E + {x}, k) == Mask(E, k) + (if x < k then Pow2(x) else 0)
  {
    if k > 0 {
      MaskInsert(E, x, k - 1);
    }
  }

  /** Equal masks mean equal membership below k. */
  lemma {:induction false} MaskDetermines(E: set<int>, F: set<int>, k: nat)
    requires Mask(E, k) == Mask(F, k)
    ensures forall x :: 0 <= x < k ==> (x in E <==> x in F)
  {
    if k > 0 {
      assert (k - 1 in E) == (k - 1 in F);
      MaskDetermines(E, F, k - 1);
    }
  }

  lemma {:induction false} MaskEmpty(k: nat)
    ensures Mask({}, k) == 0
  {
    if k > 0 {
      MaskEmpty(k - 1);
    }
  }

  /** binaryvalue: 2^e summed over the elements e, in order. */
  function Encoding(s: PcSet): (r: nat)
    ensures r == Mask(Elems(s), 12)
    ensures r < 4096
  {
    if s == [] then
      assert Elems(s) == {};
      MaskEmpty(12);
      0
    else
      var p := s[..|s| - 1];
      assert Elems(s) == Elems(p) + {s[|s| - 1]} by {
        assert s == p + [s[|s| - 1]];
      }
      MaskInsert(Elems(p), s[|s| - 1], 12);
      Encoding(p) + Pow2(s[|s| - 1])
  }

  /** binaryvalue, accumulating in a loop. */
  method BinaryValue(s: PcSet) returns (value: nat)
    ensures value == Encoding(s)
  {
    value := 0;
    for i := 0 to |s|
      invariant value == Encoding(s[..i])
    {
      assert s[..i + 1][..i] == s[..i];
      value := value + Pow2(s[i]);
    }
    assert s[..|s|] == s;
  }

  /** Two sets have the same encoding iff they have the same members. */
  lemma {:induction false} EncodingInjective(a: PcSet, b: PcSet)
    ensures Encoding(a) == Encoding(b) <==> Elems(a) == Elems(b)
  {
    if Encoding(a) == Encoding(b) {
      MaskDetermines(Elems(a), Elems(b), 12);
      assert Elems(a) == Elems(b);
    }
  }

  // ------------------------------------------------ normal, reduced, prime

  /** Index of the first minimum: a running champion replaced only on a strict <. */
  function FirstMin(xs: seq<int>): (k: nat)
    requires |xs| > 0
    ensures k < |xs|
    ensures forall j :: 0 <= j < |xs| ==> xs[k] <= xs[j]
    ensures forall j :: 0 <= j < k ==> xs[j] > xs[k]
  {
    if |xs| == 1 then 0
    else
      var m := FirstMin(xs[..|xs| - 1]);
      if xs[|xs| - 1] < xs[m] then |xs| - 1 else m
  }

  /** Extending the contest by one challenger: it wins only on a strict <. */
  lemma FirstMinStep(xs: seq<int>, k: nat)
    requires 1 <= k < |xs|
    ensures FirstMin(xs[..k + 1]) ==
            if xs[k] < xs[FirstMin(xs[..k])] then k else FirstMin(xs[..k])
  {
    assert xs[..k + 1][..k] == xs[..k];
  }

  /**
   * The order in which normal() meets the rotations: shift(size - 1) is the
   * first champion, then shift(0), ..., shift(size - 2) challenge it.
   */
  function ChampionOrder(size: nat, j: nat): (r: nat)
    requires j < size
    ensures r < size
  {
    if j == 0 then size - 1 else j - 1
  }

  /** The value normal() compares for rotation j of o: the encoding of its zero(). */
  function RotationScore(o: PcSet, j: int): nat {
    Encoding(Zero(Rotation(o, j)))
  }

  /** The scores of all rotations of o, by rotation. */
  function RotationScores(o: PcSet): (r: seq<int>)
    ensures |r| == |o|
  {
    seq(|o|, j requires 0 <= j < |o| => RotationScore(o, j))
  }

  /** The scores in the order normal() meets them. */
  function ChampionScores(xs: seq<int>): (r: seq<int>)
    requires |xs| > 0
    ensures |r| == |xs|
  {
    seq(|xs|, j requires 0 <= j < |xs| => xs[ChampionOrder(|xs|, j)])
  }

  /**
   * The winner of normal()'s contest among scores xs (one per rotation): a
   * least score; on a tie the last rotation, otherwise the earliest.
   */
  function Champion(xs: seq<int>): (idx: nat)
    requires |xs| > 0
    ensures idx < |xs|
    ensures forall j :: 0 <= j < |xs| ==> xs[idx] <= xs[j]
    ensures xs[|xs| - 1] == xs[idx] ==> idx == |xs| - 1
    ensures idx < |xs| - 1 ==> forall j :: 0 <= j < idx ==> xs[idx] < xs[j]
  {
    var cs := ChampionScores(xs);
    var f := FirstMin(cs);
    var idx := ChampionOrder(|xs|, f);
    assert cs[f] == xs[idx];
    assert forall j :: 0 <= j < |xs| ==> xs[j] == cs[if j == |xs| - 1 then 0 else j + 1];
    idx
  }

  /** When every rotation ties, the first champion, shift(size - 1), is kept. */
  lemma ChampionOfTies(xs: seq<int>)
    requires |xs| > 0
    requires forall j :: 0 <= j < |xs| ==> xs[j] == xs[0]
    ensures Champion(xs) == |xs| - 1
  {
  }

  lemma ChampionOfThreeTies(xs: seq<int>)
    requires |xs| == 3 && xs[0] == xs[1] == xs[2]
    ensures Champion(xs) == 2
  {
    ChampionOfTies(xs);
  }

  /** Which rotation of sort() normal() returns. */
  function NormalIndex(s: PcSet): (idx: nat)
    requires |s| >= 2
    ensures idx < |s|
  {
    Champion(RotationScores(Sort(s)))
  }

  lemma NormalIndexOfAscending(s: PcSet)
    requires |s| >= 2 && StrictlyIncreasing(s)
    ensures NormalIndex(s) == Champion(RotationScores(s))
  {
    SortOfAscending(s);
  }

  lemma NormalFormOfAscending(s: PcSet)
    requires |s| >= 2 && StrictlyIncreasing(s)
    ensures NormalForm(s) == Rotation(s, NormalIndex(s))
  {
    SortOfAscending(s);
  }

  /** normal(): fewer than two elements are returned as they are. */
  function NormalForm(s: PcSet): (r: PcSet)
    ensures |r| == |s| && Elems(r) == Elems(s)
    ensures |s| < 2 ==> r == s
    ensures |s| >= 2 ==> r == Rotation(Sort(s), NormalIndex(s))
  {
    if |s| < 2 then s else Rotation(Sort(s), NormalIndex(s))
  }

  /** The first n rotations of o, in order. */
  function ShiftList(o: PcSet, n: nat): seq<PcSet>
  {
    if n == 0 then [] else ShiftList(o, n - 1) + [Rotation(o, n - 1)]
  }

  lemma {:induction false} ShiftListAt(o: PcSet, n: nat)
    ensures |ShiftList(o, n)| == n
    ensures forall j :: 0 <= j < n ==> ShiftList(o, n)[j] == Rotation(o, j)
  {
    if n > 0 {
      ShiftListAt(o, n - 1);
      var prev := ShiftList(o, n - 1);
      var r := Rotation(o, n - 1);
      assert ShiftList(o, n) == prev + [r];
      forall j | 0 <= j < n ensures ShiftList(o, n)[j] == Rotation(o, j) {
        if j < n - 1 {
          assert ShiftList(o, n)[j] == prev[j];
        }
      }
    }
  }

  /** The list [o.shift(n) for n in range(len(o))]. */
  method AllShifts(o: PcSet) returns (rotations: seq<PcSet>)
    ensures |rotations| == |o|
    ensures forall j :: 0 <= j < |o| ==> rotations[j] == Rotation(o, j)
  {
    rotations := [];
    for n := 0 to |o|
      invariant rotations == ShiftList(o, n)
    {
      var rot := Shift(o, n);
      rotations := rotations + [rot];
    }
    ShiftListAt(o, |o|);
  }

  /** normal(), with its list of rotations and its running champion. */
  method Normal(s: PcSet) returns (r: PcSet)
    ensures r == NormalForm(s)
  {
    var size := |s|;
    if size < 2 {
      return s;
    }
    var original := Sort(s);
    var rotations := AllShifts(original);
    ghost var xs := RotationScores(original);
    ghost var scores := ChampionScores(xs);
    var bestnormal := rotations[size - 1];
    rotations := rotations[..size - 1];
    ContestScores(original, rotations, bestnormal, scores);
    r := Contest(rotations, bestnormal, scores);
    NormalClosing(s, original, rotations, bestnormal, scores);
  }

  /**
   * normal()'s contest: first is champion, and each arrangement in turn takes
   * over only if its zero() encodes strictly lower. The winner is the first
   * strict minimum of the scores, score 0 being first's.
   */
  method Contest(rotations: seq<PcSet>, first: PcSet, ghost scores: seq<int>) returns (bestnormal: PcSet)
    requires |scores| == |rotations| + 1 && scores[0] == Encoding(Zero(first))
    requires forall j :: 0 <= j < |rotations| ==> scores[j + 1] == Encoding(Zero(rotations[j]))
    ensures bestnormal == ([first] + rotations)[FirstMin(scores)]
  {
    ghost var entrants := [first] + rotations;
    bestnormal := first;
    var established: int := BinaryValue(Zero(bestnormal));
    ghost var best: nat := 0;
    assert scores[..1] == [scores[0]];
    for i := 0 to |rotations|
      invariant Leading(scores, entrants, i + 1, best, bestnormal, established)
    {
      best, bestnormal, established := Challenge(rotations, scores, entrants, i, best, bestnormal, established);
    }
    assert scores[..|rotations| + 1] == scores;
  }

  /**
   * The state of the contest after the first n entrants: best is the first
   * strict minimum of their scores, bestnormal its entrant, established its score.
   */
  ghost predicate Leading(scores: seq<int>, entrants: seq<PcSet>, n: nat, best: nat, bestnormal: PcSet, established: int) {
    0 < n <= |scores| == |entrants| && best == FirstMin(scores[..n]) &&
    bestnormal == entrants[best] && established == scores[best]
  }

  /** One round of the contest: arrangement i takes over only on a strictly smaller score. */
  method Challenge(rotations: seq<PcSet>, ghost scores: seq<int>, ghost entrants: seq<PcSet>, i: nat,
                   ghost best: nat, bestnormal: PcSet, established: int)
    returns (ghost best': nat, bestnormal': PcSet, established': int)
    requires |entrants| == |rotations| + 1 && i < |rotations|
    requires Leading(scores, entrants, i + 1, best, bestnormal, established)
    requires scores[i + 1] == Encoding(Zero(rotations[i])) && entrants[i + 1] == rotations[i]
    ensures Leading(scores, entrants, i + 2, best', bestnormal', established')
  {
    var arrangement := rotations[i];
    var challenger := BinaryValue(Zero(arrangement));
    FirstMinStep(scores, i + 1);
    best', bestnormal', established' := best, bestnormal, established;
    if challenger < established {
      bestnormal' := arrangement;
      established' := challenger;
      best' := i + 1;
    }
  }

  /** The scores normal() meets: shift(size - 1)'s first, then shift(0), ..., shift(size - 2)'s. */
  lemma ContestScores(o: PcSet, rotations: seq<PcSet>, first: PcSet, scores: seq<int>)
    requires |o| >= 2 && scores == ChampionScores(RotationScores(o))
    requires |rotations| == |o| - 1 && first == Rotation(o, |o| - 1)
    requires forall j :: 0 <= j < |o| - 1 ==> rotations[j] == Rotation(o, j)
    ensures |scores| == |rotations| + 1 && scores[0] == Encoding(Zero(first))
    ensures forall j :: 0 <= j < |rotations| ==> scores[j + 1] == Encoding(Zero(rotations[j]))
  {
    NormalOpening(o, scores);
    forall j | 0 <= j < |rotations| ensures scores[j + 1] == Encoding(Zero(rotations[j])) {
      NormalStep(o, j);
    }
  }

  /** normal()'s first champion is the last rotation. */
  lemma NormalOpening(o: PcSet, scores: seq<int>)
    requires |o| >= 2 && scores == ChampionScores(RotationScores(o))
    ensures ChampionOrder(|o|, 0) == |o| - 1
    ensures scores[0] == RotationScore(o, |o| - 1)
  {
    var xs := RotationScores(o);
    ChampionFirst(xs);
    ScoreAt(o, |o| - 1);
  }

  /** The contest's winner, read back as a rotation, is the normal form. */
  lemma NormalClosing(s: PcSet, o: PcSet, rotations: seq<PcSet>, first: PcSet, scores: seq<int>)
    requires |s| >= 2 && o == Sort(s) && scores == ChampionScores(RotationScores(o))
    requires |rotations| == |o| - 1 && first == Rotation(o, |o| - 1)
    requires forall j :: 0 <= j < |o| - 1 ==> rotations[j] == Rotation(o, j)
    ensures NormalForm(s) == ([first] + rotations)[FirstMin(scores)]
  {
    var f := FirstMin(scores);
    assert NormalIndex(s) == ChampionOrder(|s|, f);
  }

  /** The challenger at position i + 1 of normal()'s contest is rotation i, with its score. */
  lemma NormalStep(o: PcSet, i: nat)
    requires |o| >= 2 && i < |o| - 1
    ensures ChampionOrder(|o|, i + 1) == i
    ensures ChampionScores(RotationScores(o))[i + 1] == RotationScore(o, i)
  {
    var xs := RotationScores(o);
    ChallengerScore(xs, i);
    ScoreAt(o, i);
  }

  lemma ChampionFirst(xs: seq<int>)
    requires |xs| > 0
    ensures ChampionScores(xs)[0] == xs[|xs| - 1]
  {
  }

  lemma ChallengerScore(xs: seq<int>, i: nat)
    requires i < |xs| - 1
    ensures ChampionScores(xs)[i + 1] == xs[i]
  {
  }

  lemma ScoreAt(o: PcSet, i: nat)
    requires i < |o|
    ensures RotationScores(o)[i] == RotationScore(o, i)
  {
  }

  /** Example: for the symmetric set [0, 4, 8] every rotation ties and shift(2) wins. */
  lemma NormalOfAugmented(s: PcSet)
    requires s == [0, 4, 8]
    ensures NormalForm(s) == [4, 8, 0]
  {
    AscendingAugmented(s);
    NormalFormOfAscending(s);
    AugmentedIndex(s);
    AugmentedLast(s);
  }

  lemma AscendingAugmented(s: PcSet)
    requires s == [0, 4, 8]
    ensures |s| >= 2 && StrictlyIncreasing(s)
  {
  }

  lemma AugmentedLast(s: PcSet)
    requires s == [0, 4, 8]
    ensures Rotation(s, 2) == [4, 8, 0]
  {
    AugmentedRotations();
  }

  lemma AugmentedIndex(s: PcSet)
    requires s == [0, 4, 8]
    ensures NormalIndex(s) == 2
  {
    AugmentedScores();
    AugmentedIndexOf(s);
  }

  lemma AugmentedIndexOf(s: PcSet)
    requires s == [0, 4, 8]
    requires RotationScore(s, 0) == 273 && RotationScore(s, 1) == 273 && RotationScore(s, 2) == 273
    ensures NormalIndex(s) == 2
  {
    assert StrictlyIncreasing(s);
    NormalIndexOfAscending(s);
    var xs := RotationScores(s);
    assert xs[0] == 273 && xs[1] == 273 && xs[2] == 273;
    ChampionOfThreeTies(xs);
  }

  lemma AugmentedRotations()
    ensures Rotation([0, 4, 8], 0) == [0, 4, 8]
    ensures Rotation([0, 4, 8], 1) == [8, 0, 4]
    ensures Rotation([0, 4, 8], 2) == [4, 8, 0]
  {
  }

  lemma AugmentedZero0()
    ensures Zero([0, 4, 8]) == [0, 4, 8]
  {
    TransposeZero([0, 4, 8]);
  }

  lemma AugmentedZero1()
    ensures Zero([8, 0, 4]) == [0, 4, 8]
  {
    var z := Transpose([8, 0, 4], -8);
    assert z[0] == 0 && z[1] == 4 && z[2] == 8;
  }

  lemma AugmentedZero2()
    ensures Zero([4, 8, 0]) == [0, 4, 8]
  {
    var z := Transpose([4, 8, 0], -4);
    assert z[0] == 0 && z[1] == 4 && z[2] == 8;
  }

  lemma AugmentedScores()
    ensures RotationScore([0, 4, 8], 0) == 273
    ensures RotationScore([0, 4, 8], 1) == 273
    ensures RotationScore([0, 4, 8], 2) == 273
  {
    var o := [0, 4, 8];
    AugmentedRotations();
    AugmentedZero0();
    AugmentedZero1();
    AugmentedZero2();
    AugmentedEncoding(o);
    ScoreFrom(o, 0, o, o, 273);
    ScoreFrom(o, 1, [8, 0, 4], o, 273);
    ScoreFrom(o, 2, [4, 8, 0], o, 273);
  }

  lemma AugmentedEncoding(s: PcSet)
    requires s == [0, 4, 8]
    ensures Encoding(s) == 273
  {
    var p2: PcSet, p1: PcSet := s[..2], s[..1];
    assert p2[..1] == p1 && p1[..0] == [];
    assert Encoding(p1) == Pow2(0) == 1;
    assert Encoding(p2) == Encoding(p1) + Pow2(4);
    assert Encoding(s) == Encoding(p2) + Pow2(8);
    assert Pow2(4) == 16 && Pow2(8) == 256;
  }

  /** A rotation's score is the encoding of its zero() form. */
  lemma ScoreFrom(o: PcSet, j: int, r: PcSet, z: PcSet, value: int)
    requires Rotation(o, j) == r && Zero(r) == z && Encoding(z) == value
    ensures RotationScore(o, j) == value
  {
  }

  /** The normal form's zero() has the least encoding among the zero()s of all rotations of sort(). */
  lemma NormalFormIsLeast(s: PcSet, j: int)
    requires |s| >= 2 && 0 <= j < |s|
    ensures Encoding(Zero(NormalForm(s))) <= Encoding(Zero(Rotation(Sort(s), j)))
  {
    var o := Sort(s);
    var xs := RotationScores(o);
    var idx := Champion(xs);
    assert NormalForm(s) == Rotation(o, idx);
    assert xs[idx] == RotationScore(o, idx);
    assert xs[j] == RotationScore(o, j);
  }

  /** Example: the token string "7B25" denotes [7, 11, 2, 5]. */
  lemma ParseExample()
    ensures Build(Items(Chars("7B25"))) == Ok([7, 11, 2, 5])
  {
    var ts := Chars("7B25");
    assert ts == [Chr('7'), Chr('B'), Chr('2'), Chr('5')];
    assert Moderate(ts[0]) == Ok(7) && Moderate(ts[1]) == Ok(11);
    assert Moderate(ts[2]) == Ok(2) && Moderate(ts[3]) == Ok(5);
    var m := ModerateAll(ts);
    assert m.Ok?;
    assert m.value == [7, 11, 2, 5];
    DedupOfDistinct([7, 11, 2, 5]);
  }

  /** Example: normal() of [7, 11, 2, 5] is [11, 2, 5, 7]. */
  lemma NormalExample()
    ensures NormalForm([7, 11, 2, 5]) == [11, 2, 5, 7]
  {
    NormalExampleOf([7, 11, 2, 5]);
  }

  lemma NormalExampleOf(s: PcSet)
    requires s == [7, 11, 2, 5]
    ensures NormalForm(s) == [11, 2, 5, 7]
  {
    ExampleSort();
    ExampleIndexOf(s);
    ExampleRotations();
  }

  lemma ExampleSort()
    ensures Sort([7, 11, 2, 5]) == [2, 5, 7, 11]
  {
    var t := [2, 5, 7, 11];
    assert Elems(t) == Elems([7, 11, 2, 5]);
    SortUnique([7, 11, 2, 5], t);
  }

  lemma ExampleIndexOf(s: PcSet)
    requires |s| == 4 && Sort(s) == [2, 5, 7, 11]
    ensures NormalIndex(s) == 1
  {
    ExampleScores();
    var xs := RotationScores(Sort(s));
    assert xs[0] == 553 && xs[1] == 329 && xs[2] == 1169 && xs[3] == 581;
    ChampionOfFour(xs);
  }

  lemma ChampionOfFour(xs: seq<int>)
    requires |xs| == 4 && xs[1] < xs[0] && xs[1] < xs[2] && xs[1] < xs[3]
    ensures Champion(xs) == 1
  {
  }

  /** binaryvalue of a four-element set, bit by bit. */
  lemma {:induction false} EncodingOfFour(s: PcSet)
    requires |s| == 4
    ensures Encoding(s) == Pow2(s[0]) + Pow2(s[1]) + Pow2(s[2]) + Pow2(s[3])
  {
    assert s[..3][..2] == s[..2] && s[..2][..1] == s[..1] && s[..1][..0] == [];
    var p3: PcSet, p2: PcSet, p1: PcSet := s[..3], s[..2], s[..1];
    assert Encoding(p1) == Pow2(s[0]);
    assert Encoding(p2) == Encoding(p1) + Pow2(s[1]);
    assert Encoding(p3) == Encoding(p2) + Pow2(s[2]);
    assert Encoding(s) == Encoding(p3) + Pow2(s[3]);
  }

  lemma ExampleRotations()
    ensures Rotation([2, 5, 7, 11], 0) == [2, 5, 7, 11]
    ensures Rotation([2, 5, 7, 11], 1) == [11, 2, 5, 7]
    ensures Rotation([2, 5, 7, 11], 2) == [7, 11, 2, 5]
    ensures Rotation([2, 5, 7, 11], 3) == [5, 7, 11, 2]
  {
  }

  lemma ExampleZero(s: PcSet, z: seq<int>)
    requires |s| == 4 && |z| == 4
    requires forall i :: 0 <= i < 4 ==> 0 <= z[i] < 12 && (z[i] - s[i] + s[0]) % 12 == 0
    ensures Zero(s) == z
  {
    forall i | 0 <= i < 4
      ensures Zero(s)[i] == z[i]
    {
      ZeroEntry(s, i, z[i]);
    }
  }

  /** Entry i of zero() is the one pitch class congruent to s[i] - s[0]. */
  lemma ZeroEntry(s: PcSet, i: int, z: int)
    requires 0 <= i < |s| && 0 <= z < 12 && (z - s[i] + s[0]) % 12 == 0
    ensures Zero(s)[i] == z
  {
    var r := Zero(s)[i];
    ModUnique(r - s[i] + s[0] - (z - s[i] + s[0]), 12, (r - s[i] + s[0]) / 12 - (z - s[i] + s[0]) / 12, 0);
  }

  lemma ExampleScores()
    ensures RotationScore([2, 5, 7, 11], 0) == 553
    ensures RotationScore([2, 5, 7, 11], 1) == 329
    ensures RotationScore([2, 5, 7, 11], 2) == 1169
    ensures RotationScore([2, 5, 7, 11], 3) == 581
  {
    ExampleRotations();
    ScoreOfFour([2, 5, 7, 11], 0, [2, 5, 7, 11], [0, 3, 5, 9], 553);
    ScoreOfFour([2, 5, 7, 11], 1, [11, 2, 5, 7], [0, 3, 6, 8], 329);
    ScoreOfFour([2, 5, 7, 11], 2, [7, 11, 2, 5], [0, 4, 7, 10], 1169);
    ScoreOfFour([2, 5, 7, 11], 3, [5, 7, 11, 2], [0, 2, 6, 9], 581);
  }

  /** The score of a rotation of four notes, from its zero() form. */
  lemma ScoreOfFour(o: PcSet, j: int, r: PcSet, z: seq<int>, value: int)
    requires Rotation(o, j) == r && |r| == 4 && |z| == 4
    requires forall i :: 0 <= i < 4 ==> 0 <= z[i] < 12 && (z[i] - r[i] + r[0]) % 12 == 0
    requires value == Pow2(z[0]) + Pow2(z[1]) + Pow2(z[2]) + Pow2(z[3])
    ensures RotationScore(o, j) == value
  {
    ExampleZero(r, z);
    EncodingOfFour(Zero(r));
  }

  /** reduced(): the normal form moved to start on 0. */
  function Reduced(s: PcSet): (r: PcSet)
    ensures |r| == |s|
    ensures s != [] ==> r[0] == 0
  {
    Zero(NormalForm(s))
  }

  /**
   * prime(): the reduced form of the set or of its inversion, whichever has
   * the smaller encoding; on a tie the inversion's.
   */
  function Prime(s: PcSet): (r: PcSet)
    ensures |r| == |s|
    ensures s != [] ==> r[0] == 0
    ensures r == Reduced(s) || r == Reduced(Invert(s))
    ensures Encoding(r) <= Encoding(Reduced(s)) && Encoding(r) <= Encoding(Reduced(Invert(s)))
    ensures Encoding(Reduced(s)) == Encoding(Reduced(Invert(s))) ==> r == Reduced(Invert(s))
  {
    var original := Reduced(s);
    var inverted := Reduced(Invert(s));
    if Encoding(original) < Encoding(inverted) then original else inverted
  }

  // ------------------------------------------------ interval-class vector

  /** The interval class of two distinct pitch classes: their distance, folded into 1..6. */
  function IntervalClass(x: int, y: int): (c: int)
    requires 0 <= x < 12 && 0 <= y < 12 && x != y
    ensures 1 <= c <= 6
    ensures c == (x - y) % 12 || c == (y - x) % 12
  {
    var d := (x - y) % 12;
    if d > 6 then (12 - d) % 12 else d
  }

  lemma IntervalClassSymmetric(x: int, y: int)
    requires 0 <= x < 12 && 0 <= y < 12 && x != y
    ensures IntervalClass(x, y) == IntervalClass(y, x)
  {
  }

  /** Adds one to slot k of a vector of six counts. */
  function Bump(v: seq<nat>, k: int): (r: seq<nat>)
    requires |v| == 6 && 0 <= k < 6
    ensures |r| == 6 && r[k] == v[k] + 1
    ensures forall i :: 0 <= i < 6 && i != k ==> r[i] == v[i]
  {
    v[k := v[k] + 1]
  }

  function VAdd(a: seq<nat>, b: seq<nat>): (r: seq<nat>)
    requires |a| == 6 && |b| == 6
    ensures |r| == 6 && forall k :: 0 <= k < 6 ==> r[k] == a[k] + b[k]
  {
    seq(6, k requires 0 <= k < 6 => a[k] + b[k])
  }

  function Sum6(v: seq<nat>): nat
    requires |v| == 6
  {
    v[0] + v[1] + v[2] + v[3] + v[4] + v[5]
  }

  const NoIntervals: seq<nat> := [0, 0, 0, 0, 0, 0]

  lemma VAddNone(a: seq<nat>)
    requires |a| == 6
    ensures VAdd(a, NoIntervals) == a
  {
  }

  lemma BumpVAdd(a: seq<nat>, b: seq<nat>, k: int)
    requires |a| == 6 && |b| == 6 && 0 <= k < 6
    ensures Bump(VAdd(a, b), k) == VAdd(a, Bump(b, k))
  {
  }

  lemma VAddRegroup(a: seq<nat>, b: seq<nat>, c: seq<nat>)
    requires |a| == 6 && |b| == 6 && |c| == 6
    ensures VAdd(VAdd(a, b), c) == VAdd(a, VAdd(c, b))
  {
  }

  /** The interval classes note forms with each of others, tallied by class. */
  function IntervalRow(note: int, others: seq<int>): (v: seq<nat>)
    requires 0 <= note < 12 && InRange(others) && note !in others
    ensures |v| == 6
  {
    if others == [] then NoIntervals
    else
      var c := IntervalClass(note, others[|others| - 1]);
      Bump(IntervalRow(note, others[..|others| - 1]), c - 1)
  }

  /** The interval classes of all unordered pairs of w, tallied by class. */
  function IntervalTally(w: seq<int>): (v: seq<nat>)
    requires IsPcSet(w)
    ensures |v| == 6
  {
    if |w| <= 1 then NoIntervals
    else VAdd(IntervalTally(w[..|w| - 1]), IntervalRow(w[|w| - 1], w[..|w| - 1]))
  }

  /** ivec(): the interval classes of the set's pairs, taken over the sorted set. */
  function IntervalVector(s: PcSet): (v: seq<nat>)
    ensures |v| == 6
  {
    IntervalTally(Sort(s))
  }

  /** ivec(), popping notes off a working copy of the sorted set. */
  method Ivec(s: PcSet) returns (ivec: seq<nat>)
    ensures ivec == IntervalVector(s)
  {
    ivec := [0, 0, 0, 0, 0, 0];
    var o := Sort(s);
    var workingcopy: PcSet := o;
    while |workingcopy| > 1
      invariant |ivec| == 6
      invariant VAdd(ivec, IntervalTally(workingcopy)) == IntervalTally(o)
      decreases |workingcopy|
    {
      IvecStep(ivec, workingcopy, IntervalTally(o));
      var note := workingcopy[|workingcopy| - 1];
      workingcopy := workingcopy[..|workingcopy| - 1];
      ivec := AddIntervals(ivec, note, workingcopy);
    }
    VAddNone(ivec);
  }

  /** Popping the last note moves its row of intervals from the working copy's tally into the count. */
  lemma {:induction false} IvecStep(start: seq<nat>, whole: PcSet, total: seq<nat>)
    requires |whole| > 1 && |start| == 6 && VAdd(start, IntervalTally(whole)) == total
    ensures IsPcSet(whole[..|whole| - 1]) && whole[|whole| - 1] !in whole[..|whole| - 1]
    ensures VAdd(VAdd(start, IntervalRow(whole[|whole| - 1], whole[..|whole| - 1])), IntervalTally(whole[..|whole| - 1])) == total
  {
    PcSetSnoc(whole);
    var w, note := whole[..|whole| - 1], whole[|whole| - 1];
    TallySnoc(whole, w, note);
    VAddRegroup(start, IntervalRow(note, w), IntervalTally(w));
  }

  lemma {:induction false} TallySnoc(whole: PcSet, w: PcSet, note: int)
    requires |whole| > 1 && w == whole[..|whole| - 1] && note == whole[|whole| - 1] && note !in w
    ensures IntervalTally(whole) == VAdd(IntervalTally(w), IntervalRow(note, w))
  {
  }

  /** The inner loop of ivec(): one count per other note, in the slot of its interval class. */
  method AddIntervals(ivec0: seq<nat>, note: int, others: seq<int>) returns (ivec: seq<nat>)
    requires |ivec0| == 6 && 0 <= note < 12 && InRange(others) && note !in others
    ensures ivec == VAdd(ivec0, IntervalRow(note, others))
  {
    ivec := ivec0;
    VAddNone(ivec0);
    for j := 0 to |others|
      invariant ivec == VAdd(ivec0, IntervalRow(note, others[..j]))
    {
      var othernote := others[j];
      var intervalclass := (note - othernote) % 12;
      if intervalclass > 6 {
        intervalclass := (12 - intervalclass) % 12;
      }
      assert intervalclass == IntervalClass(note, othernote);
      RowStep(ivec0, note, others, j);
      ivec := Bump(ivec, intervalclass - 1);
    }
    assert others[..|others|] == others;
  }

  /** One more of the other notes bumps the slot of its interval class. */
  lemma {:induction false} RowStep(ivec0: seq<nat>, note: int, others: seq<int>, j: int)
    requires |ivec0| == 6 && 0 <= note < 12 && InRange(others) && note !in others && 0 <= j < |others|
    ensures VAdd(ivec0, IntervalRow(note, others[..j + 1]))
         == Bump(VAdd(ivec0, IntervalRow(note, others[..j])), IntervalClass(note, others[j]) - 1)
  {
    assert others[..j + 1][..j] == others[..j];
    BumpVAdd(ivec0, IntervalRow(note, others[..j]), IntervalClass(note, others[j]) - 1);
  }

  /** The number of unordered pairs from n things: 0 + 1 + ... + (n - 1). */
  function Pairs(n: nat): nat
  {
    if n == 0 then 0 else Pairs(n - 1) + (n - 1)
  }

  /** Pairs(n) is n(n - 1)/2. */
  lemma {:induction false} PairsFormula(n: nat)
    ensures 2 * Pairs(n) == n * (n - 1)
  {
    if n > 0 {
      PairsFormula(n - 1);
      assert n * (n - 1) == (n - 1) * (n - 2) + 2 * (n - 1);
    }
  }

  /** Every unordered pair of elements adds exactly one count: n(n - 1)/2 in all. */
  lemma IntervalVectorTotal(s: PcSet)
    ensures 2 * Sum6(IntervalVector(s)) == |s| * (|s| - 1)
  {
    TallySum(Sort(s));
    PairsFormula(|s|);
  }

  /** A tally over w counts each of its Pairs(|w|) unordered pairs once. */
  lemma {:induction false} TallySum(w: PcSet)
    ensures Sum6(IntervalTally(w)) == Pairs(|w|)
  {
    if |w| > 1 {
      PcSetSnoc(w);
      var u: PcSet, note := w[..|w| - 1], w[|w| - 1];
      TallySum(u);
      RowSum(note, u);
      VAddSum(IntervalTally(u), IntervalRow(note, u));
      assert Pairs(|w|) == Pairs(|u|) + |u|;
    }
  }

  /** A row counts each of the other notes once. */
  lemma {:induction false} RowSum(note: int, others: seq<int>)
    requires 0 <= note < 12 && InRange(others) && note !in others
    ensures Sum6(IntervalRow(note, others)) == |others|
  {
    if others != [] {
      var rest := others[..|others| - 1];
      RowSum(note, rest);
      var c := IntervalClass(note, others[|others| - 1]);
      BumpSum(IntervalRow(note, rest), c - 1);
    }
  }

  lemma BumpSum(v: seq<nat>, k: int)
    requires |v| == 6 && 0 <= k < 6
    ensures Sum6(Bump(v, k)) == Sum6(v) + 1
  {
  }

  lemma VAddSum(a: seq<nat>, b: seq<nat>)
    requires |a| == 6 && |b| == 6
    ensures Sum6(VAdd(a, b)) == Sum6(a) + Sum6(b)
  {
  }

  /** The empty set has no intervals at all. */
  lemma IntervalVectorOfEmpty()
    ensures IntervalVector([]) == NoIntervals
  {
  }

  /** The unordered pairs of members of e in interval class c, each written low note first. */
  ghost function ClassPairs(e: set<int>, c: int): set<(int, int)>
    requires forall x :: x in e ==> 0 <= x < 12
  {
    set x, y | x in e && y in e && x < y && IntervalClass(x, y) == c :: (x, y)
  }

  /** The pair of x and y, low note first. */
  function Ordered(x: int, y: int): (p: (int, int))
    ensures p == (x, y) || p == (y, x)
    ensures p.0 <= p.1
  {
    if x < y then (x, y) else (y, x)
  }

  /** The pairs in interval class c that note forms with the members of e. */
  ghost function RowPairs(note: int, e: set<int>, c: int): set<(int, int)>
    requires 0 <= note < 12 && note !in e && forall x :: x in e ==> 0 <= x < 12
  {
    set y | y in e && IntervalClass(note, y) == c :: Ordered(note, y)
  }

  /** Entry k of ivec() counts the unordered pairs of members in interval class k + 1. */
  lemma IntervalVectorCounts(s: PcSet, k: int)
    requires 0 <= k < 6
    ensures IntervalVector(s)[k] ==
      |set x, y | x in Elems(s) && y in Elems(s) && x < y && IntervalClass(x, y) == k + 1 :: (x, y)|
  {
    TallyCounts(Sort(s), k);
    assert ClassPairs(Elems(Sort(s)), k + 1) == ClassPairs(Elems(s), k + 1);
  }

  /** Slot k of a tally over w counts the pairs of w in interval class k + 1. */
  lemma {:induction false} TallyCounts(w: PcSet, k: int)
    requires 0 <= k < 6
    ensures IntervalTally(w)[k] == |ClassPairs(Elems(w), k + 1)|
  {
    if |w| <= 1 {
      forall x, y | x in Elems(w) && y in Elems(w) ensures x == y {
      }
      assert ClassPairs(Elems(w), k + 1) == {};
    } else {
      PcSetSnoc(w);
      var u: PcSet := w[..|w| - 1];
      TallyCounts(u, k);
      TallyCountsStep(w, u, w[|w| - 1], k);
    }
  }

  /** The count for one more note: the earlier pairs, plus the pairs the note forms. */
  lemma TallyCountsStep(w: PcSet, u: PcSet, note: int, k: int)
    requires |w| > 1 && u == w[..|w| - 1] && note == w[|w| - 1] && note !in u && 0 <= k < 6
    requires IntervalTally(u)[k] == |ClassPairs(Elems(u), k + 1)|
    ensures IntervalTally(w)[k] == |ClassPairs(Elems(w), k + 1)|
  {
    RowCounts(note, u, k);
    TallySnoc(w, u, note);
    ClassPairsSnoc(w, u, note, k + 1);
  }

  /** The pairs of w are those of u, its front, and the ones its last note forms with u. */
  lemma ClassPairsSnoc(w: PcSet, u: PcSet, note: int, c: int)
    requires |w| > 1 && u == w[..|w| - 1] && note == w[|w| - 1] && note !in u
    ensures |ClassPairs(Elems(w), c)| == |ClassPairs(Elems(u), c)| + |RowPairs(note, Elems(u), c)|
  {
    PcSetSnoc(w);
    assert Elems(w) == Elems(u) + {note};
    PairsCount(Elems(u), note, c);
  }

  lemma PairsCount(e: set<int>, note: int, c: int)
    requires 0 <= note < 12 && note !in e && forall x :: x in e ==> 0 <= x < 12
    ensures |ClassPairs(e + {note}, c)| == |ClassPairs(e, c)| + |RowPairs(note, e, c)|
  {
    PairsSplit(e, note, c);
    var earlier, row := ClassPairs(e, c), RowPairs(note, e, c);
    assert |earlier + row| == |earlier| + |row|;
  }

  /** The pairs of e plus note are the pairs of e and, apart from them, the pairs that note forms. */
  lemma PairsSplit(e: set<int>, note: int, c: int)
    requires 0 <= note < 12 && note !in e && forall x :: x in e ==> 0 <= x < 12
    ensures ClassPairs(e + {note}, c) == ClassPairs(e, c) + RowPairs(note, e, c)
    ensures ClassPairs(e, c) * RowPairs(note, e, c) == {}
  {
    var all, old_, row := ClassPairs(e + {note}, c), ClassPairs(e, c), RowPairs(note, e, c);
    forall p | p in all ensures p in old_ || p in row {
      var x, y := p.0, p.1;
      if x == note {
        assert Ordered(note, y) == p;
      } else if y == note {
        IntervalClassSymmetric(x, y);
        assert Ordered(note, x) == p;
      }
    }
    forall p | p in row ensures p in all {
      var y :| y in e && IntervalClass(note, y) == c && p == Ordered(note, y);
      IntervalClassSymmetric(note, y);
      if note < y {
        assert p == (note, y);
      } else {
        assert p == (y, note);
      }
    }
    forall p | p in row ensures p !in old_ {
      var y :| y in e && IntervalClass(note, y) == c && p == Ordered(note, y);
    }
  }

  /** Slot k of a row counts the other notes lying interval class k + 1 from note. */
  lemma {:induction false} RowCounts(note: int, others: PcSet, k: int)
    requires 0 <= note < 12 && note !in others && 0 <= k < 6
    ensures IntervalRow(note, others)[k] == |RowPairs(note, Elems(others), k + 1)|
  {
    if others == [] {
      assert RowPairs(note, Elems(others), k + 1) == {};
    } else {
      PcSetSnoc(others);
      var rest: PcSet := others[..|others| - 1];
      RowCounts(note, rest, k);
      RowPairsSnoc(note, others, rest, k + 1);
      var before := IntervalRow(note, rest);
      assert IntervalRow(note, others) == Bump(before, IntervalClass(note, others[|others| - 1]) - 1);
    }
  }

  /** The row pairs with others are those with its front, plus the last note's if it is in class c. */
  lemma RowPairsSnoc(note: int, others: PcSet, rest: PcSet, c: int)
    requires 0 <= note < 12 && note !in others && others != [] && rest == others[..|others| - 1]
    ensures |RowPairs(note, Elems(others), c)| ==
      |RowPairs(note, Elems(rest), c)| + if IntervalClass(note, others[|others| - 1]) == c then 1 else 0
  {
    PcSetSnoc(others);
    var o := others[|others| - 1];
    assert Elems(others) == Elems(rest) + {o};
    RowPairsAdd(note, Elems(rest), o, c);
  }

  /** One more member o adds its pair to the row exactly when it lies in class c. */
  lemma RowPairsAdd(note: int, e: set<int>, o: int, c: int)
    requires 0 <= note < 12 && 0 <= o < 12 && note != o && note !in e && o !in e
    requires forall x :: x in e ==> 0 <= x < 12
    ensures Ordered(note, o) !in RowPairs(note, e, c)
    ensures RowPairs(note, e + {o}, c) ==
      RowPairs(note, e, c) + (if IntervalClass(note, o) == c then {Ordered(note, o)} else {})
  {
    forall y | y in e ensures Ordered(note, y) != Ordered(note, o) {
    }
  }

  // ------------------------------------------------- common-tone vector

  /** How often v occurs in t. */
  function Count(t: seq<int>, v: int): (r: nat)
    ensures r <= |t|
    ensures v !in t ==> r == 0
  {
    if t == [] then 0 else Count(t[..|t| - 1], v) + (if t[|t| - 1] == v then 1 else 0)
  }

  lemma {:induction false} CountAppend(a: seq<int>, b: seq<int>, v: int)
    ensures Count(a + b, v) == Count(a, v) + Count(b, v)
  {
    if b == [] {
      assert a + b == a;
    } else {
      assert (a + b)[..|a + b| - 1] == a + b[..|b| - 1];
      assert (a + b)[|a + b| - 1] == b[|b| - 1];
      CountAppend(a, b[..|b| - 1], v);
    }
  }

  /** The sums (x + y) mod 12 for a fixed x and each y of ys, in order. */
  function SumRow(x: int, ys: seq<int>): (r: seq<int>)
    ensures |r| == |ys|
    ensures InRange(r)
  {
    if ys == [] then [] else SumRow(x, ys[..|ys| - 1]) + [(x + ys[|ys| - 1]) % 12]
  }

  /** cvec()'s raw table: (x + y) mod 12 for every x of xs and y of ys, row by row. */
  function SumTable(xs: seq<int>, ys: seq<int>): (r: seq<int>)
    ensures InRange(r)
  {
    if xs == [] then [] else SumTable(xs[..|xs| - 1], ys) + SumRow(xs[|xs| - 1], ys)
  }

  /** cvec(): entry v counts the ordered pairs of elements whose sum is v mod 12. */
  function CommonToneVector(s: PcSet): (v: seq<nat>)
    ensures |v| == 12
  {
    var raw := SumTable(s, s);
    seq(12, k requires 0 <= k < 12 => Count(raw, k))
  }

  /** The first half of cvec(): the raw table, in two nested loops. */
  method RawTable(s: PcSet) returns (rawtable: seq<int>)
    ensures rawtable == SumTable(s, s)
  {
    rawtable := [];
    for i := 0 to |s|
      invariant rawtable == SumTable(s[..i], s)
    {
      assert s[..i + 1][..i] == s[..i] && s[..i + 1][i] == s[i];
      assert SumTable(s[..i + 1], s) == SumTable(s[..i], s) + SumRow(s[i], s);
      assert s[..0] == [];
      for j := 0 to |s|
        invariant rawtable == SumTable(s[..i], s) + SumRow(s[i], s[..j])
      {
        ghost var row := SumRow(s[i], s[..j]);
        assert s[..j + 1][..j] == s[..j] && s[..j + 1][j] == s[j];
        assert SumRow(s[i], s[..j + 1]) == row + [(s[i] + s[j]) % 12];
        rawtable := rawtable + [(s[i] + s[j]) % 12];
        assert rawtable == SumTable(s[..i], s) + (row + [(s[i] + s[j]) % 12]);
      }
      assert s[..|s|] == s;
    }
    assert s[..|s|] == s;
  }

  /** The second half of cvec(): counts each distinct entry of the table, in an unspecified order. */
  method TallyEntries(rawtable: seq<int>) returns (cvec: seq<nat>)
    requires InRange(rawtable)
    ensures |cvec| == 12
    ensures forall k :: 0 <= k < 12 ==> cvec[k] == Count(rawtable, k)
  {
    cvec := [0, 0, 0, 0, 0, 0, 0, 0, 0, 0, 0, 0];
    var entries := Elems(rawtable);
    ghost var done: set<int> := {};
    while entries != {}
      invariant entries + done == Elems(rawtable) && entries !! done
      invariant |cvec| == 12
      invariant forall k :: 0 <= k < 12 ==> cvec[k] == if k in done then Count(rawtable, k) else 0
      decreases |entries|
    {
      var value :| value in entries;
      assert 0 <= value < 12 && value !in done;
      cvec := cvec[value := cvec[value] + Count(rawtable, value)];
      entries := entries - {value};
      done := done + {value};
    }
    forall k | 0 <= k < 12
      ensures cvec[k] == Count(rawtable, k)
    {
      if k !in done {
        assert k !in rawtable;
      }
    }
  }

  /** cvec(): the raw table of sums, then the count of each of its entries. */
  method Cvec(s: PcSet) returns (cvec: seq<nat>)
    ensures cvec == CommonToneVector(s)
  {
    var rawtable := RawTable(s);
    cvec := TallyEntries(rawtable);
  }

  /** Within one octave, a + y = v (mod 12) has the single solution y = (v - a) mod 12. */
  lemma SumSolution(a: int, y: int, v: int)
    requires 0 <= y < 12 && 0 <= v < 12
    ensures (a + y) % 12 == v <==> y == (v - a) % 12
  {
    ModAddMod(v - a, a);
    ModAddMod(a + y, -a);
    ModSmall(y, 12);
    ModSmall(v, 12);
  }

  /** The elements x of xs whose partner (v - x) mod 12 under TvI is also in s. */
  ghost function Partnered(xs: seq<int>, s: seq<int>, v: int): set<int>
  {
    set x | x in xs && (v - x) % 12 in s
  }

  lemma PartneredSnoc(init: seq<int>, x: int, s: seq<int>, v: int)
    ensures Partnered(init + [x], s, v)
      == Partnered(init, s, v) + (if (v - x) % 12 in s then {x} else {})
  {
    forall y
      ensures y in Partnered(init + [x], s, v)
        <==> y in Partnered(init, s, v) + (if (v - x) % 12 in s then {x} else {})
    {
      assert y in init + [x] <==> y in init || y == x;
    }
  }

  lemma {:induction false} SumRowCount(x: int, ys: seq<int>, v: int)
    requires IsPcSet(ys) && 0 <= v < 12
    ensures Count(SumRow(x, ys), v) == if (v - x) % 12 in ys then 1 else 0
  {
    if ys != [] {
      var init, y := ys[..|ys| - 1], ys[|ys| - 1];
      PcSetSnoc(ys);
      SumRowCount(x, init, v);
      SumRowSnoc(x, ys, v);
      SumSolution(x, y, v);
    }
  }

  /** Dropping the last element of a pitch class set leaves one without it. */
  lemma PcSetSnoc(ys: seq<int>)
    requires IsPcSet(ys) && ys != []
    ensures IsPcSet(ys[..|ys| - 1]) && ys[|ys| - 1] !in ys[..|ys| - 1]
    ensures forall z :: z in ys <==> z in ys[..|ys| - 1] || z == ys[|ys| - 1]
  {
    assert ys == ys[..|ys| - 1] + [ys[|ys| - 1]];
  }

  lemma SumRowSnoc(x: int, ys: seq<int>, v: int)
    requires ys != []
    ensures Count(SumRow(x, ys), v) == Count(SumRow(x, ys[..|ys| - 1]), v) + (if (x + ys[|ys| - 1]) % 12 == v then 1 else 0)
  {
    var row := SumRow(x, ys);
    assert row[..|row| - 1] == SumRow(x, ys[..|ys| - 1]);
  }

  lemma {:induction false} SumTableCount(xs: seq<int>, s: seq<int>, v: int)
    requires IsPcSet(xs) && IsPcSet(s) && 0 <= v < 12
    ensures Count(SumTable(xs, s), v) == |Partnered(xs, s, v)|
  {
    if xs == [] {
      assert Partnered(xs, s, v) == {};
    } else {
      var init, x := xs[..|xs| - 1], xs[|xs| - 1];
      assert xs == init + [x];
      assert IsPcSet(init);
      assert SumTable(xs, s) == SumTable(init, s) + SumRow(x, s);
      SumTableCount(init, s, v);
      CountAppend(SumTable(init, s), SumRow(x, s), v);
      SumRowCount(x, s, v);
      assert x !in init;
      assert x !in Partnered(init, s, v);
      PartneredSnoc(init, x, s, v);
    }
  }

  /** Each element of the TvI-image of s has its partner (v - x) mod 12 in s. */
  lemma TnIMember(s: PcSet, v: int, i: int)
    requires 0 <= v < 12 && 0 <= i < |s|
    ensures (v - TnI(s, v)[i]) % 12 == s[i]
  {
    var r := TnI(s, v);
    ModSmall(v, 12);
    assert (s[i] + r[i]) % 12 == v;
    SumSolution(r[i], s[i], v);
  }

  /** The members of the TvI-image of s are exactly the x whose partner (v - x) mod 12 is in s. */
  lemma TnIMembers(s: PcSet, v: int, x: int)
    requires 0 <= v < 12 && 0 <= x < 12
    ensures x in TnI(s, v) <==> (v - x) % 12 in s
  {
    var r := TnI(s, v);
    if x in r {
      var i :| 0 <= i < |r| && r[i] == x;
      TnIMember(s, v, i);
    }
    if (v - x) % 12 in s {
      var i :| 0 <= i < |s| && s[i] == (v - x) % 12;
      TnIPartner(s, v, x, i);
      assert r[i] == x;
    }
  }

  /** The partner of x at position i of s is carried onto x. */
  lemma TnIPartner(s: PcSet, v: int, x: int, i: int)
    requires 0 <= v < 12 && 0 <= x < 12 && 0 <= i < |s| && s[i] == (v - x) % 12
    ensures TnI(s, v)[i] == x
  {
    var e, y := s[i], TnI(s, v)[i];
    ModSmall(v, 12);
    assert (e + y) % 12 == v && 0 <= y < 12;
    SumSolution(e, y, v);
    SumSolution(x, e, v);
    SumSolution(e, x, v);
  }

  /**
   * cvec(): entry v is the number of tones that s has in common with its
   * image under TvI.
   */
  lemma CommonTones(s: PcSet, v: int)
    requires 0 <= v < 12
    ensures CommonToneVector(s)[v] == |Elems(s) * Elems(TnI(s, v))|
  {
    SumTableCount(s, s, v);
    forall x | x in Elems(s)
      ensures x in Elems(TnI(s, v)) <==> (v - x) % 12 in s
    {
      TnIMembers(s, v, x);
    }
    assert Partnered(s, s, v) == Elems(s) * Elems(TnI(s, v));
  }
}
