/**
 * The prime catalog: each of the 4096 sets built from the bits of 0..4095 is
 * reduced to its prime form and filed on the page of its size, one copy of
 * each prime per page.
 */
module Catalog {
  import opened Wrappers
  import opened PcSets
  import opened PcOps
  import opened CanonicalForms

  // ------------------------------------------------ enumerating the 4096 sets

  /** Bit b of n is set: n & 2**b is not 0. */
  predicate HasBit(n: nat, b: nat) {
    (n / Pow2(b)) % 2 == 1
  }

  /** The set bits of n below k, in ascending order. */
  function Bits(n: nat, k: nat): (r: seq<int>)
    requires k <= 12
    ensures |r| <= k
    ensures StrictlyIncreasing(r) && InRange(r) && Distinct(r)
    ensures forall x :: x in r <==> 0 <= x < k && HasBit(n, x)
    ensures forall i :: 0 <= i < |r| ==> r[i] < k
  {
    if k == 0 then [] else Bits(n, k - 1) + (if HasBit(n, k - 1) then [k - 1] else [])
  }

  /** The set enumerated for n. */
  function BitSet(n: nat): (r: PcSet)
    ensures |r| <= 12
  {
    Bits(n, 12)
  }

  /** The inner loop of all_possible_pcsets: test the twelve bits in turn. */
  method PossibleSet(n: nat) returns (result: PcSet)
    ensures result == BitSet(n)
  {
    result := [];
    for bit := 0 to 12
      invariant result == Bits(n, bit)
    {
      if (n / Pow2(bit)) % 2 == 1 {
        result := result + [bit];
      }
    }
  }

  /** Splitting off the top bit of n modulo 2p. */
  lemma ModSplit(n: nat, p: nat)
    requires p > 0
    ensures n % (2 * p) == n % p + (if (n / p) % 2 == 1 then p else 0)
  {
    var q, r0 := n / p, n % p;
    assert n == q * p + r0;
    var h, b := q / 2, q % 2;
    assert q == 2 * h + b;
    assert q * p == h * (2 * p) + b * p;
    assert n == h * (2 * p) + (b * p + r0);
    assert 0 <= b * p + r0 < 2 * p by {
      assert b == 0 || b == 1;
    }
    ModUnique(n, 2 * p, h, b * p + r0);
  }

  /** The mask of a set that agrees with the bits of n below k is n modulo 2^k. */
  lemma {:induction false} MaskOfBits(E: set<int>, n: nat, k: nat)
    requires forall x :: 0 <= x < k ==> (x in E <==> HasBit(n, x))
    ensures Mask(E, k) == n % Pow2(k)
  {
    if k == 0 {
    } else {
      MaskOfBits(E, n, k - 1);
      ModSplit(n, Pow2(k - 1));
    }
  }

  /** binaryvalue of the set enumerated for n is n. */
  lemma BitSetEncoding(n: nat)
    requires n < 4096
    ensures Encoding(BitSet(n)) == n
  {
    MaskOfBits(Elems(BitSet(n)), n, 12);
    assert Pow2(12) == 4096;
  }

  /** Every set is enumerated, in ascending order, at its own binaryvalue. */
  lemma {:induction false} BitSetOfEncoding(s: PcSet)
    ensures BitSet(Encoding(s)) == Sort(s)
  {
    var b := BitSet(Encoding(s));
    BitSetEncoding(Encoding(s));
    EncodingInjective(b, s);
    SortUnique(s, b);
  }

  /** all_possible_pcsets, in the order it yields them. */
  function AllSets(): seq<PcSet> {
    seq(4096, n requires 0 <= n => BitSet(n))
  }

  /** all_possible_pcsets: the sets for 0..4095, in order. */
  method AllPossible() returns (sets: seq<PcSet>)
    ensures sets == AllSets()
  {
    sets := [];
    for n := 0 to 4096
      invariant |sets| == n
      invariant forall i :: 0 <= i < n ==> sets[i] == BitSet(i)
    {
      var s := PossibleSet(n);
      sets := sets + [s];
    }
  }

  /** A prime form: the prime of some set. */
  ghost predicate IsPrimeForm(x: PcSet) {
    exists s: PcSet :: Prime(s) == x
  }

  /** The prime of every set is the prime of some enumerated set: the one at its binaryvalue. */
  lemma {:induction false} PrimeEnumerated(s: PcSet)
    ensures Encoding(s) < |AllSets()| && Prime(AllSets()[Encoding(s)]) == Prime(s)
  {
    BitSetOfEncoding(s);
    PrimeOfMembers(Sort(s), s);
  }

  // ------------------------------------------------------------- any_match

  /** any_match: some entry of the page is exactly the set. */
  method AnyMatch(p: PcSet, page: seq<PcSet>) returns (found: bool)
    ensures found <==> p in page
  {
    for i := 0 to |page|
      invariant p !in page[..i]
    {
      if ExactEquality(p, page[i]) {
        return true;
      }
      assert page[..i + 1] == page[..i] + [page[i]];
    }
    assert page[..|page|] == page;
    return false;
  }

  // ------------------------------------------------------------ the filing

  /** A catalog of 13 empty pages. */
  function EmptyCatalog(): (r: seq<seq<PcSet>>)
    ensures |r| == 13
  {
    seq(13, k => [])
  }

  /** One round of _rebuild: p goes on the page of its size unless that page holds it. */
  function File(cat: seq<seq<PcSet>>, p: PcSet): (r: seq<seq<PcSet>>)
    requires |cat| == 13
    ensures |r| == 13
  {
    AtMostTwelve(p);
    var page := cat[|p|];
    if p in page then cat else cat[|p| := page + [p]]
  }

  /** The catalog _rebuild makes from the given sets, taken in order, filing key(s) for each s. */
  function Filed(key: PcSet -> PcSet, sets: seq<PcSet>): (r: seq<seq<PcSet>>)
    ensures |r| == 13
  {
    if sets == [] then EmptyCatalog()
    else File(Filed(key, sets[..|sets| - 1]), key(sets[|sets| - 1]))
  }

  /** Page k holds only sets of size k. */
  predicate Paged(cat: seq<seq<PcSet>>) {
    forall k, i :: 0 <= k < |cat| && 0 <= i < |cat[k]| ==> |cat[k][i]| == k
  }

  /** No page holds the same set twice. */
  predicate NoRepeats(cat: seq<seq<PcSet>>) {
    forall k, i, j :: 0 <= k < |cat| && 0 <= i < j < |cat[k]| ==> cat[k][i] != cat[k][j]
  }

  /** Every entry is the key of one of the sets. */
  ghost predicate Sound(cat: seq<seq<PcSet>>, key: PcSet -> PcSet, sets: seq<PcSet>) {
    forall k, x :: 0 <= k < |cat| && x in cat[k] ==> exists i :: 0 <= i < |sets| && x == key(sets[i])
  }

  /** The key of every one of the sets is on the page of its size. */
  predicate Complete(cat: seq<seq<PcSet>>, key: PcSet -> PcSet, sets: seq<PcSet>) {
    forall i :: 0 <= i < |sets| ==> |key(sets[i])| < |cat| && key(sets[i]) in cat[|key(sets[i])|]
  }

  /** Filing keeps each page to its own size and free of repeats. */
  lemma FileKeepsShape(cat: seq<seq<PcSet>>, p: PcSet)
    requires |cat| == 13 && Paged(cat) && NoRepeats(cat)
    ensures Paged(File(cat, p)) && NoRepeats(File(cat, p))
    ensures |p| < 13 && p in File(cat, p)[|p|]
    ensures forall k, x :: 0 <= k < 13 && x in File(cat, p)[k] ==> x in cat[k] || x == p
    ensures forall k, x :: 0 <= k < 13 && x in cat[k] ==> x in File(cat, p)[k]
  {
    AtMostTwelve(p);
  }

  lemma {:induction false} FiledShape(key: PcSet -> PcSet, sets: seq<PcSet>)
    ensures Paged(Filed(key, sets)) && NoRepeats(Filed(key, sets))
  {
    if sets != [] {
      FiledShape(key, sets[..|sets| - 1]);
      FileKeepsShape(Filed(key, sets[..|sets| - 1]), key(sets[|sets| - 1]));
    }
  }

  lemma {:induction false} FiledSound(key: PcSet -> PcSet, sets: seq<PcSet>)
    ensures Sound(Filed(key, sets), key, sets)
  {
    if sets != [] {
      var init := sets[..|sets| - 1];
      var last := |sets| - 1;
      FiledSound(key, init);
      FiledShape(key, init);
      FileKeepsShape(Filed(key, init), key(sets[last]));
      forall k, x | 0 <= k < 13 && x in Filed(key, sets)[k]
        ensures exists i :: 0 <= i < |sets| && x == key(sets[i])
      {
        if x in Filed(key, init)[k] {
          var i :| 0 <= i < |init| && x == key(init[i]);
          assert sets[i] == init[i];
        } else {
          assert x == key(sets[last]);
        }
      }
    }
  }

  lemma {:induction false} FiledComplete(key: PcSet -> PcSet, sets: seq<PcSet>)
    ensures Complete(Filed(key, sets), key, sets)
  {
    if sets != [] {
      var init := sets[..|sets| - 1];
      var last := |sets| - 1;
      FiledComplete(key, init);
      FiledShape(key, init);
      FileKeepsShape(Filed(key, init), key(sets[last]));
      forall i | 0 <= i < |sets|
        ensures |key(sets[i])| < 13 && key(sets[i]) in Filed(key, sets)[|key(sets[i])|]
      {
        AtMostTwelve(key(sets[i]));
        if i < last {
          assert sets[i] == init[i];
        }
      }
    }
  }

  /** One more round of filing. */
  lemma FiledStep(sets: seq<PcSet>, i: int)
    requires 0 <= i < |sets|
    ensures Filed(Prime, sets[..i + 1]) == File(Filed(Prime, sets[..i]), Prime(sets[i]))
  {
    assert sets[..i + 1][..i] == sets[..i];
  }

  /** File either leaves the catalog alone or appends p to the page of its size. */
  lemma FileCases(cat: seq<seq<PcSet>>, p: PcSet)
    requires |cat| == 13 && |p| < 13
    ensures p in cat[|p|] ==> File(cat, p) == cat
    ensures p !in cat[|p|] ==> File(cat, p) == cat[|p| := cat[|p|] + [p]]
  {
  }

  /** The catalog _rebuild makes from the enumerated sets. */
  function Rebuilt(): (r: seq<seq<PcSet>>)
    ensures |r| == 13
  {
    Filed(Prime, AllSets())
  }

  /** The rebuilt catalog: page k holds exactly the prime forms of size k. */
  lemma RebuiltPages(k: int, x: PcSet)
    requires 0 <= k < 13
    ensures x in Rebuilt()[k] <==> IsPrimeForm(x) && |x| == k
  {
    var cat := Rebuilt();
    FiledShape(Prime, AllSets());
    if x in cat[k] {
      FiledSound(Prime, AllSets());
      var i :| 0 <= i < |AllSets()| && x == Prime(AllSets()[i]);
    }
    if IsPrimeForm(x) && |x| == k {
      var s: PcSet :| Prime(s) == x;
      PrimeEnumerated(s);
      FiledComplete(Prime, AllSets());
      assert Prime(AllSets()[Encoding(s)]) in cat[|Prime(AllSets()[Encoding(s)])|];
    }
  }

  // ------------------------------------------------- reading all the pages

  /** The pages' entries one after another, page 0 first. */
  function Flatten(pages: seq<seq<PcSet>>): seq<PcSet> {
    if pages == [] then [] else Flatten(pages[..|pages| - 1]) + pages[|pages| - 1]
  }

  /** The sum of the page sizes. */
  function SizeSum(pages: seq<seq<PcSet>>): nat {
    if pages == [] then 0 else SizeSum(pages[..|pages| - 1]) + |pages[|pages| - 1]|
  }

  /** Reading the pages out yields as many entries as the pages hold. */
  lemma {:induction false} FlattenLength(pages: seq<seq<PcSet>>)
    ensures |Flatten(pages)| == SizeSum(pages)
  {
    if pages != [] {
      FlattenLength(pages[..|pages| - 1]);
    }
  }

  /** An entry is read out exactly when some page holds it. */
  lemma {:induction false} FlattenMembers(pages: seq<seq<PcSet>>, x: PcSet)
    ensures x in Flatten(pages) <==> exists k :: 0 <= k < |pages| && x in pages[k]
  {
    if pages != [] {
      var init := pages[..|pages| - 1];
      FlattenMembers(init, x);
      if x in Flatten(init) {
        var k :| 0 <= k < |init| && x in init[k];
        assert x in pages[k];
      }
      if exists k :: 0 <= k < |pages| && x in pages[k] {
        var k :| 0 <= k < |pages| && x in pages[k];
        if k < |init| {
          assert x in init[k];
        }
      }
    }
  }

  /** Pages filed by size read out in ascending size, with no entry twice. */
  lemma {:induction false} FlattenOrdered(pages: seq<seq<PcSet>>)
    requires Paged(pages) && NoRepeats(pages)
    ensures forall i :: 0 <= i < |Flatten(pages)| ==> |Flatten(pages)[i]| < |pages|
    ensures forall i, j :: 0 <= i < j < |Flatten(pages)| ==>
              |Flatten(pages)[i]| <= |Flatten(pages)[j]| && Flatten(pages)[i] != Flatten(pages)[j]
  {
    if pages != [] {
      var init := pages[..|pages| - 1];
      var last := pages[|pages| - 1];
      FlattenOrdered(init);
      var f, g := Flatten(init), Flatten(pages);
      assert g == f + last;
      forall i | 0 <= i < |g|
        ensures |g[i]| < |pages|
      {
        if i >= |f| {
          assert g[i] == last[i - |f|];
        }
      }
      forall i, j | 0 <= i < j < |g|
        ensures |g[i]| <= |g[j]| && g[i] != g[j]
      {
        if j < |f| {
          assert g[i] == f[i] && g[j] == f[j];
        } else if i < |f| {
          assert g[i] == f[i] && g[j] == last[j - |f|];
        } else {
          assert g[i] == last[i - |f|] && g[j] == last[j - |f|];
        }
      }
    }
  }

  // ------------------------------------------------------------- the class

  /** SetCatalog: the pages of prime forms, page k holding those of size k. */
  class SetCatalog {
    var catalog: seq<seq<PcSet>>

    /** The catalog is the one _rebuild makes. */
    predicate Valid()
      reads this
    {
      catalog == Rebuilt()
    }

    /** SetCatalog(rebuild=True, store=False). */
    constructor ()
      ensures Valid()
    {
      catalog := [];
      new;
      Rebuild();
    }

    /** _rebuild: 13 empty pages, then each enumerated set's prime filed unless already there. */
    method Rebuild()
      modifies this
      ensures Valid()
    {
      catalog := EmptyCatalog();
      var sets := AllPossible();
      for i := 0 to |sets|
        invariant catalog == Filed(Prime, sets[..i])
      {
        var p := Prime(sets[i]);
        AtMostTwelve(p);
        var page := catalog[|p|];
        var found := AnyMatch(p, page);
        FiledStep(sets, i);
        FileCases(catalog, p);
        if !found {
          catalog := catalog[|p| := page + [p]];
        }
      }
      assert sets[..|sets|] == sets;
    }

    /**
     * page(n): a copy of page n, counted from the end when n is negative.
     * None stands for the IndexError that indexing the page list raises
     * outside -13..12.
     */
    function Page(n: int): (r: Option<seq<PcSet>>)
      reads this
      ensures r.Some? <==> -|catalog| <= n < |catalog|
      ensures 0 <= n < |catalog| ==> r == Some(catalog[n])
      ensures -|catalog| <= n < 0 ==> r == Some(catalog[|catalog| + n])
    {
      if 0 <= n < |catalog| then Some(catalog[n])
      else if -|catalog| <= n < 0 then Some(catalog[|catalog| + n])
      else None
    }

    /** Page n of a rebuilt catalog holds exactly the prime forms of size n. */
    lemma PageHoldsPrimes(n: int, x: PcSet)
      requires Valid() && 0 <= n < 13
      ensures Page(n).Some? && (x in Page(n).value <==> IsPrimeForm(x) && |x| == n)
    {
      RebuiltPages(n, x);
    }

    /** Every entry, page by page: the order of iteration. */
    function Entries(): seq<PcSet>
      reads this
    {
      Flatten(catalog)
    }

    /** __iter__: the entries of pages 0 to 12 in order. */
    method Iterate() returns (items: seq<PcSet>)
      requires |catalog| == 13
      ensures items == Entries()
    {
      items := [];
      for n := 0 to 13
        invariant items == Flatten(catalog[..n])
      {
        var page := catalog[n];
        for j := 0 to |page|
          invariant items == Flatten(catalog[..n]) + page[..j]
        {
          items := items + [page[j]];
        }
        assert catalog[..n + 1][..n] == catalog[..n];
      }
      assert catalog[..13] == catalog;
    }

    /** __len__: the sum of the page sizes, which is the number of entries iterated. */
    method Len() returns (result: nat)
      requires |catalog| == 13
      ensures result == SizeSum(catalog)
      ensures result == |Entries()|
    {
      result := 0;
      for n := 0 to 13
        invariant result == SizeSum(catalog[..n])
      {
        result := result + |catalog[n]|;
        assert catalog[..n + 1][..n] == catalog[..n];
      }
      assert catalog[..13] == catalog;
      FlattenLength(catalog);
    }

    /** Iterating a rebuilt catalog yields every prime form once, in ascending size. */
    lemma EntriesArePrimes(x: PcSet)
      requires Valid()
      ensures x in Entries() <==> IsPrimeForm(x)
      ensures forall i, j :: 0 <= i < j < |Entries()| ==>
                |Entries()[i]| <= |Entries()[j]| && Entries()[i] != Entries()[j]
    {
      FiledShape(Prime, AllSets());
      FlattenOrdered(catalog);
      FlattenMembers(catalog, x);
      AtMostTwelve(x);
      RebuiltPages(|x|, x);
      if x in Entries() {
        var k :| 0 <= k < 13 && x in catalog[k];
        RebuiltPages(k, x);
      }
    }
  }
}
