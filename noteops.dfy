/**
 * Note-name translation: reading space-separated note names into a pitch
 * class set, naming pitch classes with flats or sharps, and the
 * minimum-conflict search that picks a spelling for the black keys.
 */
module NoteOps {
  import opened Wrappers
  import opened PcSets
  import opened PcOps

  // -------------------------------------------------------------- constants

  /** The C scale by pitch class; '-' marks the black keys. */
  const CScale: string := "C-D-EF-G-A-B"

  /** The seven letter names, in the order the conflict score visits them. */
  const Letters: string := "CDEFGAB"

  /** The unicode flat, natural and sharp signs. */
  const UFlat: char := '\U{266D}'
  const UNatural: char := '\U{266E}'
  const USharp: char := '\U{266F}'

  /** Accidentals from least to most popular; a name's popularity is its index. */
  const Ranking: seq<string> := ["A#", "Gb", "D#", "Db", "G#", "Ab", "C#", "Eb", "F#", "Bb"]

  /** Why a translation failed (the message texts are not modelled). */
  datatype NoteError =
    | NonStringError
    | NoteFormatError(problem: string)
    | IllegalNoteError(problem: string)
    | IllegalModifierError(modifier: char, setting: string)

  /** Index of the first occurrence of x in s. */
  function IndexOf<T(==)>(s: seq<T>, x: T): (k: nat)
    requires x in s
    ensures k < |s| && s[k] == x
    ensures forall j :: 0 <= j < k ==> s[j] != x
  {
    if s[0] == x then 0 else 1 + IndexOf(s[1..], x)
  }

  // ------------------------------------------------------- reading a note

  /** CSCALE.index(c): the first position of c in the C scale, or -1 when c is not there. */
  function ScaleIndex(c: char): (k: int)
    ensures -1 <= k < 12
    ensures k == -1 <==> c !in CScale
    ensures k >= 0 ==> CScale[k] == c && forall j :: 0 <= j < k ==> CScale[j] != c
  {
    if c == 'C' then 0
    else if c == '-' then 1
    else if c == 'D' then 2
    else if c == 'E' then 4
    else if c == 'F' then 5
    else if c == 'G' then 7
    else if c == 'A' then 9
    else if c == 'B' then 11
    else -1
  }

  /** The accidentals pitchclass_of accepts after the letter. */
  predicate IsAccidental(c: char) {
    c == 'b' || c == UFlat || c == '#' || c == USharp || c == UNatural
  }

  /** The semitone offset of an accepted accidental. */
  function Offset(c: char): (d: int)
    requires IsAccidental(c)
    ensures -1 <= d <= 1
    ensures d == -1 <==> c == 'b' || c == UFlat
    ensures d == 1 <==> c == '#' || c == USharp
  {
    if c == 'b' || c == UFlat then -1
    else if c == '#' || c == USharp then 1
    else 0
  }

  /**
   * pitchclass_of: a letter C..B, optionally followed by one accidental.
   * The result is not reduced mod 12: "Cb" gives -1 and "B#" gives 12.
   */
  function PitchclassOf(note: string): (r: Result<int, NoteError>)
    requires |note| > 0
    ensures |note| > 2 ==> r == Err(NoteFormatError(note))
    ensures |note| <= 2 && note[0] !in Letters ==> r == Err(IllegalNoteError(note))
    ensures (|note| == 2 && note[0] in Letters && !IsAccidental(note[1]))
              ==> r == Err(IllegalModifierError(note[1], note))
    ensures r.Ok? <==> |note| <= 2 && note[0] in Letters && (|note| == 1 || IsAccidental(note[1]))
    ensures r.Ok? ==> -1 <= r.value <= 12
  {
    if |note| > 2 then Err(NoteFormatError(note))
    else if note[0] == '-' then Err(IllegalNoteError(note))
    else if ScaleIndex(note[0]) < 0 then Err(IllegalNoteError(note))
    else
      var base := ScaleIndex(note[0]);
      if |note| == 1 then Ok(base)
      else if IsAccidental(note[1]) then Ok(base + Offset(note[1]))
      else Err(IllegalModifierError(note[1], note))
  }

  /** The natural pitch class of each letter. */
  lemma LetterValues()
    ensures PitchclassOf("C") == Ok(0) && PitchclassOf("D") == Ok(2) && PitchclassOf("E") == Ok(4)
    ensures PitchclassOf("F") == Ok(5) && PitchclassOf("G") == Ok(7) && PitchclassOf("A") == Ok(9)
    ensures PitchclassOf("B") == Ok(11)
  {
    var c := "C"; var d := "D"; var e := "E"; var f := "F"; var g := "G"; var a := "A"; var b := "B";
    NaturalValue(c, 'C'); NaturalValue(d, 'D'); NaturalValue(e, 'E'); NaturalValue(f, 'F');
    NaturalValue(g, 'G'); NaturalValue(a, 'A'); NaturalValue(b, 'B');
  }

  /** A letter alone reads as its place in the C scale. */
  lemma NaturalValue(note: string, l: char)
    requires note == [l] && l in Letters
    ensures PitchclassOf(note) == Ok(ScaleIndex(l))
  {
  }

  /** A flat lowers the letter by a semitone, a sharp raises it, a natural changes nothing. */
  lemma AccidentalOffsets(l: char, a: char)
    requires l in Letters && IsAccidental(a)
    ensures PitchclassOf([l, a]).Ok? && PitchclassOf([l]).Ok?
    ensures PitchclassOf([l, a]).value == PitchclassOf([l]).value + Offset(a)
  {
  }

  // ------------------------------------------------------------------ pcfor

  /** What pcfor is given: a string, or something that is not one. */
  datatype Spec = Text(s: string) | NotText

  /** The pitch classes of the words, failing at the first word that does not read. */
  function Pitchclasses(ws: seq<string>): (r: Result<seq<int>, NoteError>)
    requires forall i :: 0 <= i < |ws| ==> |ws[i]| > 0
    ensures r.Ok? <==> forall i :: 0 <= i < |ws| ==> PitchclassOf(ws[i]).Ok?
    ensures r.Ok? ==> |r.value| == |ws| && forall i :: 0 <= i < |ws| ==> PitchclassOf(ws[i]) == Ok(r.value[i])
    ensures r.Err? ==> exists i :: 0 <= i < |ws| && PitchclassOf(ws[i]) == Err(r.error)
                                   && forall j :: 0 <= j < i ==> PitchclassOf(ws[j]).Ok?
  {
    if ws == [] then Ok([])
    else
      match PitchclassOf(ws[0])
      case Err(e) => Err(e)
      case Ok(x) =>
        match Pitchclasses(ws[1..])
        case Err(e) =>
          assert forall j :: 1 <= j < |ws| ==> ws[1..][j - 1] == ws[j];
          Err(e)
        case Ok(xs) =>
          assert forall j :: 1 <= j < |ws| ==> ws[1..][j - 1] == ws[j];
          Ok([x] + xs)
  }

  /** A set built from integers never fails; its members are the integers mod 12. */
  lemma IntsBuild(xs: seq<int>)
    ensures Build(Items(Nums(xs))).Ok?
    ensures forall x :: x in Build(Items(Nums(xs))).value <==> exists i :: 0 <= i < |xs| && xs[i] % 12 == x
  {
    var m := ModerateAll(Nums(xs));
    assert m.Ok?;
    forall i | 0 <= i < |xs| ensures m.value[i] == xs[i] % 12 {
      assert Moderate(Nums(xs)[i]) == Ok(m.value[i]);
    }
    forall x ensures x in Dedup(m.value) <==> exists i :: 0 <= i < |xs| && xs[i] % 12 == x {
      if x in m.value {
        var i :| 0 <= i < |m.value| && m.value[i] == x;
        assert xs[i] % 12 == x;
      }
      if exists i :: 0 <= i < |xs| && xs[i] % 12 == x {
        var i :| 0 <= i < |xs| && xs[i] % 12 == x;
        assert m.value[i] == x;
      }
    }
  }

  /** The pitch classes of words that all read, in order. */
  function WordClasses(ws: seq<string>): (r: seq<int>)
    requires forall i :: 0 <= i < |ws| ==> |ws[i]| > 0 && PitchclassOf(ws[i]).Ok?
    ensures |r| == |ws|
  {
    seq(|ws|, i requires 0 <= i < |ws| => PitchclassOf(ws[i]).value % 12)
  }

  /** pcfor: split on white space, read each note, build the set. */
  function Pcfor(spec: Spec): (r: Result<PcSet, NoteError>)
    ensures spec.NotText? ==> r == Err(NonStringError)
    ensures spec.Text? ==>
              (r.Ok? <==> forall i :: 0 <= i < |Words(spec.s)| ==> PitchclassOf(Words(spec.s)[i]).Ok?)
    ensures r.Ok? ==> spec.Text? && forall x :: x in r.value <==>
              exists i :: 0 <= i < |Words(spec.s)| && PitchclassOf(Words(spec.s)[i]).value % 12 == x
    ensures r.Ok? ==> r.value == Dedup(WordClasses(Words(spec.s)))
  {
    match spec
    case NotText => Err(NonStringError)
    case Text(s) =>
      match Pitchclasses(Words(s))
      case Err(e) =>
        WordFails(s, e);
        Err(e)
      case Ok(xs) =>
        WordValues(s, xs);
        Ok(Build(Items(Nums(xs))).value)
  }

  /** When some word of s does not read, not every word reads. */
  lemma {:induction false} WordFails(s: string, e: NoteError)
    requires Pitchclasses(Words(s)) == Err(e)
    ensures !forall i :: 0 <= i < |Words(s)| ==> PitchclassOf(Words(s)[i]).Ok?
  {
    var ws := Words(s);
    var i :| 0 <= i < |ws| && PitchclassOf(ws[i]) == Err(e);
  }

  /** When every word of s reads, the set built from the values holds them mod 12. */
  lemma {:induction false} WordValues(s: string, xs: seq<int>)
    requires Pitchclasses(Words(s)) == Ok(xs)
    ensures forall i :: 0 <= i < |Words(s)| ==> PitchclassOf(Words(s)[i]).Ok?
    ensures Build(Items(Nums(xs))).Ok?
    ensures forall x :: x in Build(Items(Nums(xs))).value <==>
              exists i :: 0 <= i < |Words(s)| && PitchclassOf(Words(s)[i]).value % 12 == x
    ensures Build(Items(Nums(xs))).value == Dedup(WordClasses(Words(s)))
  {
    var ws := Words(s);
    IntsBuild(xs);
    var m := ModerateAll(Nums(xs));
    forall i | 0 <= i < |xs| ensures m.value[i] == WordClasses(ws)[i] {
      assert Moderate(Nums(xs)[i]) == Ok(m.value[i]);
      assert PitchclassOf(ws[i]).value == xs[i];
    }
    assert m.value == WordClasses(ws);
    forall x | x in Build(Items(Nums(xs))).value
      ensures exists i :: 0 <= i < |ws| && PitchclassOf(ws[i]).value % 12 == x
    {
      var i :| 0 <= i < |xs| && xs[i] % 12 == x;
      assert PitchclassOf(ws[i]).value == xs[i];
    }
  }

  /** The empty string names the empty set. */
  lemma PcforOfEmpty()
    ensures Pcfor(Text("")) == Ok([])
  {
    IntsBuild([]);
  }

  // ------------------------------------------------------------ flat, sharp

  /** A white key: the C scale names it directly. */
  predicate IsNatural(pc: int)
    requires 0 <= pc < 12
  {
    CScale[pc] != '-'
  }

  lemma BlackKeys(pc: int)
    requires 0 <= pc < 12
    ensures !IsNatural(pc) <==> pc == 1 || pc == 3 || pc == 6 || pc == 8 || pc == 10
  {
  }

  /** Reading the letter of a white key gives back that key. */
  lemma ScaleIndexOfNatural(pc: int)
    requires 0 <= pc < 12 && IsNatural(pc)
    ensures CScale[pc] in Letters && ScaleIndex(CScale[pc]) == pc
  {
    BlackKeys(pc);
  }

  /** flat: white keys by letter, black keys as the next letter with a flat. */
  function Flat(pc: int): (r: string)
    requires 0 <= pc < 12
    ensures |r| > 0 && IsWord(r) && r[0] in Letters
    ensures IsNatural(pc) ==> r == [CScale[pc]]
    ensures !IsNatural(pc) ==> |r| == 2 && r[1] == 'b'
  {
    BlackKeys(pc);
    if CScale[pc] == '-' then [CScale[pc + 1], 'b'] else [CScale[pc]]
  }

  /** sharp: white keys by letter, black keys as the previous letter with a sharp. */
  function Sharp(pc: int): (r: string)
    requires 0 <= pc < 12
    ensures |r| > 0 && IsWord(r) && r[0] in Letters
    ensures IsNatural(pc) ==> r == [CScale[pc]]
    ensures !IsNatural(pc) ==> |r| == 2 && r[1] == '#'
  {
    BlackKeys(pc);
    if CScale[pc] == '-' then [CScale[pc - 1], '#'] else [CScale[pc]]
  }

  /** Reading a flat name gives back the pitch class. */
  lemma FlatRoundTrip(pc: int)
    requires 0 <= pc < 12
    ensures PitchclassOf(Flat(pc)) == Ok(pc)
  {
    BlackKeys(pc);
    if IsNatural(pc) {
      ScaleIndexOfNatural(pc);
    } else {
      ScaleIndexOfNatural(pc + 1);
    }
  }

  /** Reading a sharp name gives back the pitch class. */
  lemma SharpRoundTrip(pc: int)
    requires 0 <= pc < 12
    ensures PitchclassOf(Sharp(pc)) == Ok(pc)
  {
    BlackKeys(pc);
    if IsNatural(pc) {
      ScaleIndexOfNatural(pc);
    } else {
      ScaleIndexOfNatural(pc - 1);
    }
  }

  // ---------------------------------------------------------------- scores

  /** The conflict penalty of a letter that occurs n times. */
  function Penalty(n: nat): (p: int)
    ensures p == 0 <==> n <= 1
    ensures -5 <= p <= 0
  {
    if n == 2 then -1 else if n > 2 then -5 else 0
  }

  /** The conflict score over the given letters: each letter is counted in the whole string. */
  function ConflictOver(s: string, ls: string): (r: int)
    ensures -5 * |ls| <= r <= 0
    ensures r == 0 <==> forall i :: 0 <= i < |ls| ==> multiset(s)[ls[i]] <= 1
  {
    if ls == [] then 0
    else
      var init := ls[..|ls| - 1];
      assert forall i :: 0 <= i < |init| ==> init[i] == ls[i];
      ConflictOver(s, init) + Penalty(multiset(s)[ls[|ls| - 1]])
  }

  /** conflict: a penalty for every letter name the string uses more than once. */
  function ConflictOf(s: string): (r: int)
    ensures -35 <= r <= 0
    ensures r == 0 <==> forall i :: 0 <= i < 7 ==> multiset(s)[Letters[i]] <= 1
  {
    ConflictOver(s, Letters)
  }

  /** conflict(notestring): counts each letter and accumulates the penalties. */
  method Conflict(s: string) returns (amount: int)
    ensures amount == ConflictOf(s)
  {
    amount := 0;
    for k := 0 to |Letters|
      invariant amount == ConflictOver(s, Letters[..k])
    {
      var note := Letters[k];
      var sharednames := multiset(s)[note];
      if sharednames == 2 {
        amount := amount - 1;
      } else if sharednames > 2 {
        amount := amount - 5;
      }
      assert Letters[..k + 1][..k] == Letters[..k];
    }
    assert Letters[..|Letters|] == Letters;
  }

  /** How many adjacent words start with the same letter. */
  function Clashes(ws: seq<string>): (n: nat)
    requires forall i :: 0 <= i < |ws| ==> |ws[i]| > 0
    ensures |ws| > 0 ==> n < |ws|
    ensures n == 0 <==> forall i :: 0 <= i < |ws| - 1 ==> ws[i][0] != ws[i + 1][0]
  {
    if |ws| <= 1 then 0
    else
      var init := ws[..|ws| - 1];
      assert forall i :: 0 <= i < |init| ==> init[i] == ws[i];
      Clashes(init) + (if ws[|ws| - 2][0] == ws[|ws| - 1][0] then 1 else 0)
  }

  /** neighborconflict: minus one for every pair of neighbours sharing a letter. */
  function NeighborConflictOf(s: string): (r: int)
    ensures r <= 0
    ensures Words(s) != [] ==> r > -|Words(s)|
    ensures r == 0 <==> forall i :: 0 <= i < |Words(s)| - 1 ==> Words(s)[i][0] != Words(s)[i + 1][0]
  {
    -(Clashes(Words(s)) as int)
  }

  /** neighborconflict(notestring): compares each word with the next. */
  method NeighborConflict(s: string) returns (amount: int)
    ensures amount == NeighborConflictOf(s)
  {
    amount := 0;
    var notes := Words(s);
    if |notes| <= 1 {
      return;
    }
    for n := 0 to |notes| - 1
      invariant amount == -(Clashes(notes[..n + 1]) as int)
    {
      var first := notes[n];
      var second := notes[n + 1];
      if first[0] == second[0] {
        amount := amount - 1;
      }
      assert notes[..n + 2][..n + 1] == notes[..n + 1];
    }
    assert notes[..|notes|] == notes;
  }

  /** The popularity of a name: its index in the ranking, 0 when it is not ranked. */
  function Popularity(w: string): (p: nat)
    ensures p < |Ranking|
    ensures p > 0 ==> w in Ranking && Ranking[p] == w
    ensures w in Ranking ==> Ranking[p] == w
    ensures w !in Ranking ==> p == 0
  {
    if w in Ranking then IndexOf(Ranking, w) else 0
  }

  /** The summed popularity of the words. */
  function PopularitySum(ws: seq<string>): (n: nat)
    ensures n <= 9 * |ws|
  {
    if ws == [] then 0 else PopularitySum(ws[..|ws| - 1]) + Popularity(ws[|ws| - 1])
  }

  /** popularitycontest: the summed popularity of the words of the string. */
  function PopularityOf(s: string): (r: int)
    ensures 0 <= r <= 9 * |Words(s)|
  {
    PopularitySum(Words(s))
  }

  /** popularitycontest(notestring): adds up the ranking index of every word. */
  method PopularityContest(s: string) returns (amount: int)
    ensures amount == PopularityOf(s)
  {
    amount := 0;
    var notes := Words(s);
    for k := 0 to |notes|
      invariant amount == PopularitySum(notes[..k])
    {
      var note := notes[k];
      PopularityStep(notes, k);
      if note in Ranking {
        amount := amount + IndexOf(Ranking, note);
      }
    }
    assert notes[..|notes|] == notes;
  }

  lemma PopularityStep(ws: seq<string>, k: nat)
    requires k < |ws|
    ensures PopularitySum(ws[..k + 1]) == PopularitySum(ws[..k]) + Popularity(ws[k])
  {
    assert ws[..k + 1][..k] == ws[..k];
  }

  // -------------------------------------------------------------- eliminate

  /** The three scoring rules minconflict hands to eliminate. */
  datatype Contest = PopularityRule | NeighborRule | ConflictRule

  function ScoreOf(c: Contest, s: string): int {
    match c
    case PopularityRule => PopularityOf(s)
    case NeighborRule => NeighborConflictOf(s)
    case ConflictRule => ConflictOf(s)
  }

  /** Runs the scoring method of the rule. */
  method Score(c: Contest, s: string) returns (r: int)
    ensures r == ScoreOf(c, s)
  {
    match c
    case PopularityRule => r := PopularityContest(s);
    case NeighborRule => r := NeighborConflict(s);
    case ConflictRule => r := Conflict(s);
  }

  /** The score a rule gives, as a function value. */
  function Scorer(c: Contest): string -> int {
    s => ScoreOf(c, s)
  }

  /** The larger of base and the scores of xs. */
  function Top(f: string -> int, base: int, xs: seq<string>): int
  {
    if xs == [] then base
    else
      var m0 := Top(f, base, xs[..|xs| - 1]);
      if f(xs[|xs| - 1]) > m0 then f(xs[|xs| - 1]) else m0
  }

  /** Top bounds base and every score of xs, and is one of them. */
  lemma {:induction false} TopBounds(f: string -> int, base: int, xs: seq<string>)
    ensures base <= Top(f, base, xs) && forall x :: x in xs ==> f(x) <= Top(f, base, xs)
    ensures Top(f, base, xs) == base || exists x :: x in xs && f(x) == Top(f, base, xs)
  {
    if xs != [] {
      var init := xs[..|xs| - 1];
      assert xs == init + [xs[|xs| - 1]];
      TopBounds(f, base, init);
    }
  }

  lemma {:induction false} TopStep(f: string -> int, base: int, xs: seq<string>, x: string)
    ensures Top(f, base, xs + [x]) == if f(x) > Top(f, base, xs) then f(x) else Top(f, base, xs)
  {
    assert (xs + [x])[..|xs|] == xs;
  }

  /** The items of xs that score exactly m, in order. */
  function Keep(xs: seq<string>, f: string -> int, m: int): seq<string>
  {
    if xs == [] then []
    else Keep(xs[..|xs| - 1], f, m) + (if f(xs[|xs| - 1]) == m then [xs[|xs| - 1]] else [])
  }

  /** Keep selects exactly the items scoring m, and drops or keeps each occurrence. */
  lemma {:induction false} KeepMembers(xs: seq<string>, f: string -> int, m: int)
    ensures forall x :: x in Keep(xs, f, m) <==> x in xs && f(x) == m
    ensures multiset(Keep(xs, f, m)) <= multiset(xs)
  {
    if xs != [] {
      var init := xs[..|xs| - 1];
      assert xs == init + [xs[|xs| - 1]];
      KeepMembers(init, f, m);
    }
  }

  lemma {:induction false} KeepStep(xs: seq<string>, x: string, f: string -> int, m: int)
    ensures Keep(xs + [x], f, m) == Keep(xs, f, m) + (if f(x) == m then [x] else [])
  {
    assert (xs + [x])[..|xs|] == xs;
  }

  /** Nothing of xs is kept when every item scores below m. */
  lemma {:induction false} KeepNone(xs: seq<string>, f: string -> int, m: int)
    requires forall x :: x in xs ==> f(x) < m
    ensures Keep(xs, f, m) == []
  {
    if xs != [] {
      var init := xs[..|xs| - 1];
      assert forall x :: x in init ==> x in xs;
      KeepNone(init, f, m);
      assert xs[|xs| - 1] in xs;
    }
  }

  /**
   * What eliminate returns: the last item first when it attains the best
   * score, then the other items that attain it, in their order.
   */
  function EliminateOf(items: seq<string>, f: string -> int): (r: seq<string>)
    requires |items| > 0
  {
    var rest := items[..|items| - 1];
    var last := items[|items| - 1];
    Standing(f, last, rest, Top(f, f(last), rest))
  }

  /**
   * eliminate keeps exactly the items that attain the best score, at least
   * one, and only items of the input.
   */
  lemma EliminatedWinners(items: seq<string>, f: string -> int)
    requires |items| > 0
    ensures EliminateOf(items, f) != []
    ensures forall x :: x in EliminateOf(items, f) <==> x in items && forall y :: y in items ==> f(y) <= f(x)
    ensures multiset(EliminateOf(items, f)) <= multiset(items)
  {
    var rest := items[..|items| - 1];
    var last := items[|items| - 1];
    assert items == rest + [last];
    var m := Top(f, f(last), rest);
    TopBounds(f, f(last), rest);
    KeepMembers(rest, f, m);
    assert forall y :: y in items ==> f(y) <= m;
  }

  /**
   * eliminate(items, based_on): takes the last item as the first champion,
   * then lets every other item in order take over, tie or lose.
   */
  method Eliminate(items: seq<string>, c: Contest) returns (winners: seq<string>)
    requires |items| > 0
    ensures winners == EliminateOf(items, Scorer(c))
  {
    ghost var f := Scorer(c);
    var champion := items[|items| - 1];
    var rest := items[..|items| - 1];
    var winningscore := Score(c, champion);
    winners := [champion];
    for k := 0 to |rest|
      invariant winningscore == Top(f, f(champion), rest[..k])
      invariant winners == Standing(f, champion, rest[..k], winningscore)
    {
      var challenger := rest[k];
      assert rest[..k + 1] == rest[..k] + [challenger];
      var score := Score(c, challenger);
      assert score == f(challenger);
      ChallengeStep(f, champion, rest[..k], challenger);
      if score > winningscore {
        winners := [challenger];
        winningscore := score;
      } else if score == winningscore {
        winners := winners + [challenger];
      }
    }
    assert rest[..|rest|] == rest;
  }

  /** The winners' circle when the best score among champion and xs is m. */
  function Standing(f: string -> int, champion: string, xs: seq<string>, m: int): seq<string> {
    (if f(champion) == m then [champion] else []) + Keep(xs, f, m)
  }

  /** One challenger: a higher score starts a new circle, an equal one joins, a lower one is out. */
  lemma {:induction false} ChallengeStep(f: string -> int, champion: string, xs: seq<string>, x: string)
    ensures var m := Top(f, f(champion), xs);
            Top(f, f(champion), xs + [x]) == (if f(x) > m then f(x) else m) &&
            Standing(f, champion, xs + [x], Top(f, f(champion), xs + [x])) ==
              if f(x) > m then [x]
              else if f(x) == m then Standing(f, champion, xs, m) + [x]
              else Standing(f, champion, xs, m)
  {
    var m := Top(f, f(champion), xs);
    TopStep(f, f(champion), xs, x);
    if f(x) > m {
      TopBounds(f, f(champion), xs);
      KeepNone(xs, f, f(x));
      KeepStep(xs, x, f, f(x));
    } else {
      KeepStep(xs, x, f, m);
    }
  }

  // ------------------------------------------------------------- spellings

  /** A spelling of pcs: each pitch class named by its flat or its sharp name. */
  predicate IsSpelling(c: seq<string>, pcs: seq<int>)
    requires InRange(pcs)
  {
    |c| == |pcs| && forall i :: 0 <= i < |c| ==> c[i] == Flat(pcs[i]) || c[i] == Sharp(pcs[i])
  }

  /** Every option with the name w appended. */
  function Extend(options: seq<seq<string>>, w: string): (r: seq<seq<string>>)
    ensures |r| == |options|
  {
    seq(|options|, i requires 0 <= i < |options| => options[i] + [w])
  }

  /** The number of black keys among pcs. */
  function BlackCount(pcs: seq<int>): nat
    requires InRange(pcs)
  {
    if pcs == [] then 0
    else BlackCount(pcs[..|pcs| - 1]) + (if IsNatural(pcs[|pcs| - 1]) then 0 else 1)
  }

  /**
   * The candidate spellings in the order minconflict builds them: a white
   * key extends every option, a black key doubles the list, flats first.
   */
  function SpellingsOf(pcs: seq<int>): seq<seq<string>>
    requires InRange(pcs)
  {
    if pcs == [] then [[]]
    else
      var prev := SpellingsOf(pcs[..|pcs| - 1]);
      var pc := pcs[|pcs| - 1];
      if IsNatural(pc) then Extend(prev, [CScale[pc]])
      else Extend(prev, Flat(pc)) + Extend(prev, Sharp(pc))
  }

  /** There are 2^k candidates, k the number of black keys. */
  lemma {:induction false} SpellingsCount(pcs: seq<int>)
    requires InRange(pcs)
    ensures |SpellingsOf(pcs)| == Pow2(BlackCount(pcs))
  {
    if pcs != [] {
      var init := pcs[..|pcs| - 1];
      SpellingsCount(init);
      SpellingsStep(pcs, init);
    }
  }

  /** A white key keeps the number of candidates, a black key doubles it. */
  lemma {:induction false} SpellingsStep(pcs: seq<int>, init: seq<int>)
    requires InRange(pcs) && pcs != [] && init == pcs[..|pcs| - 1]
    requires InRange(init) && |SpellingsOf(init)| == Pow2(BlackCount(init))
    ensures |SpellingsOf(pcs)| == Pow2(BlackCount(pcs))
  {
    var pc := pcs[|pcs| - 1];
    var prev := SpellingsOf(init);
    var k := BlackCount(init);
    if IsNatural(pc) {
      assert BlackCount(pcs) == k;
      assert SpellingsOf(pcs) == Extend(prev, [CScale[pc]]);
    } else {
      assert BlackCount(pcs) == k + 1;
      assert SpellingsOf(pcs) == Extend(prev, Flat(pc)) + Extend(prev, Sharp(pc));
      assert |SpellingsOf(pcs)| == 2 * |prev|;
      assert Pow2(k + 1) == 2 * Pow2(k);
    }
  }

  /** A spelling extended by a name of the next pitch class. */
  lemma SpellingGrows(p: seq<string>, init: seq<int>, pc: int, w: string)
    requires InRange(init) && 0 <= pc < 12 && IsSpelling(p, init)
    requires w == Flat(pc) || w == Sharp(pc)
    ensures InRange(init + [pc]) && IsSpelling(p + [w], init + [pc])
  {
    var c, pcs := p + [w], init + [pc];
    forall k | 0 <= k < |c| ensures c[k] == Flat(pcs[k]) || c[k] == Sharp(pcs[k]) {
      if k < |p| {
        assert c[k] == p[k] && pcs[k] == init[k];
      }
    }
  }

  /** Dropping the last name of a spelling spells the shorter list. */
  lemma SpellingShrinks(c: seq<string>, pcs: seq<int>)
    requires InRange(pcs) && pcs != [] && IsSpelling(c, pcs)
    ensures InRange(pcs[..|pcs| - 1]) && IsSpelling(c[..|c| - 1], pcs[..|pcs| - 1])
    ensures c == c[..|c| - 1] + [c[|c| - 1]]
    ensures c[|c| - 1] == Flat(pcs[|pcs| - 1]) || c[|c| - 1] == Sharp(pcs[|pcs| - 1])
  {
    var p, init := c[..|c| - 1], pcs[..|pcs| - 1];
    assert c[|c| - 1] == Flat(pcs[|pcs| - 1]) || c[|c| - 1] == Sharp(pcs[|pcs| - 1]);
    forall k | 0 <= k < |p| ensures p[k] == Flat(init[k]) || p[k] == Sharp(init[k]) {
      assert p[k] == c[k] && init[k] == pcs[k];
    }
  }

  /** Every candidate is a spelling. */
  lemma {:induction false} SpellingsSound(pcs: seq<int>, c: seq<string>)
    requires InRange(pcs) && c in SpellingsOf(pcs)
    ensures IsSpelling(c, pcs)
  {
    if pcs != [] {
      var init := pcs[..|pcs| - 1];
      var pc := pcs[|pcs| - 1];
      var all := SpellingsOf(pcs);
      var i :| 0 <= i < |all| && all[i] == c;
      var p, w := CandidateParts(pcs, i);
      SpellingsSound(init, p);
      assert pcs == init + [pc];
      SpellingGrows(p, init, pc, w);
    }
  }

  /** Candidate i is a shorter candidate extended by a name of the last pitch class. */
  lemma CandidateParts(pcs: seq<int>, i: int) returns (p: seq<string>, w: string)
    requires InRange(pcs) && pcs != [] && 0 <= i < |SpellingsOf(pcs)|
    ensures InRange(pcs[..|pcs| - 1]) && p in SpellingsOf(pcs[..|pcs| - 1])
    ensures w == Flat(pcs[|pcs| - 1]) || w == Sharp(pcs[|pcs| - 1])
    ensures SpellingsOf(pcs)[i] == p + [w]
  {
    var prev := SpellingsOf(pcs[..|pcs| - 1]);
    var pc := pcs[|pcs| - 1];
    var j := if i < |prev| then i else i - |prev|;
    p := prev[j];
    if IsNatural(pc) {
      w := [CScale[pc]];
    } else if i < |prev| {
      w := Flat(pc);
    } else {
      w := Sharp(pc);
    }
  }

  /** Every spelling is a candidate. */
  lemma {:induction false} SpellingsComplete(pcs: seq<int>, c: seq<string>)
    requires InRange(pcs) && IsSpelling(c, pcs)
    ensures c in SpellingsOf(pcs)
  {
    if pcs == [] {
      assert c == [];
    } else {
      var init := pcs[..|pcs| - 1];
      var prev := SpellingsOf(init);
      var p := c[..|c| - 1];
      SpellingShrinks(c, pcs);
      SpellingsComplete(init, p);
      var j :| 0 <= j < |prev| && prev[j] == p;
      SpellingsAt(pcs, j, c[|c| - 1]);
    }
  }

  /** Where p + [w] sits in the candidates, p the j-th candidate of the shorter list. */
  lemma SpellingsAt(pcs: seq<int>, j: int, w: string)
    requires InRange(pcs) && pcs != []
    requires 0 <= j < |SpellingsOf(pcs[..|pcs| - 1])|
    requires w == Flat(pcs[|pcs| - 1]) || w == Sharp(pcs[|pcs| - 1])
    ensures SpellingsOf(pcs[..|pcs| - 1])[j] + [w] in SpellingsOf(pcs)
  {
    var prev := SpellingsOf(pcs[..|pcs| - 1]);
    var pc := pcs[|pcs| - 1];
    var all := SpellingsOf(pcs);
    if IsNatural(pc) {
      assert all[j] == prev[j] + [w];
    } else if w == Flat(pc) {
      assert all[j] == prev[j] + [w];
    } else {
      assert all[|prev| + j] == prev[j] + [w];
    }
  }

  /** The candidate strings: every spelling joined with single spaces. */
  function Candidates(pcs: seq<int>): seq<string>
    requires InRange(pcs)
  {
    var s := SpellingsOf(pcs);
    seq(|s|, i requires 0 <= i < |s| => JoinWords(s[i]))
  }

  /** minconflict's permutation loop: builds the spellings one pitch class at a time. */
  method Options(pcs: PcSet) returns (options: seq<seq<string>>)
    ensures options == SpellingsOf(pcs)
  {
    options := [[]];
    for k := 0 to |pcs|
      invariant options == SpellingsOf(pcs[..k])
    {
      var pc := pcs[k];
      assert pcs[..k + 1][..k] == pcs[..k];
      if CScale[pc] != '-' {
        options := Extend(options, [CScale[pc]]);
      } else {
        var build := [];
        var choices := [Flat(pc), Sharp(pc)];
        for j := 0 to 2
          invariant build == if j == 0 then [] else if j == 1 then Extend(options, Flat(pc))
                             else Extend(options, Flat(pc)) + Extend(options, Sharp(pc))
        {
          var wcopy := Extend(options, choices[j]);
          build := build + wcopy;
        }
        options := build;
      }
    }
    assert pcs[..|pcs|] == pcs;
  }

  // --------------------------------------------------- lexicographic order

  /** Python's string order: a prefix comes first, otherwise the first differing character decides. */
  predicate LexLessEq(a: string, b: string)
    decreases |a|
  {
    a == [] || (b != [] && (a[0] < b[0] || (a[0] == b[0] && LexLessEq(a[1..], b[1..]))))
  }

  lemma {:induction false} LexTotal(a: string, b: string)
    ensures LexLessEq(a, b) || LexLessEq(b, a)
    decreases |a|
  {
    if a != [] && b != [] && a[0] == b[0] {
      LexTotal(a[1..], b[1..]);
    }
  }

  lemma {:induction false} LexTransitive(a: string, b: string, c: string)
    requires LexLessEq(a, b) && LexLessEq(b, c)
    ensures LexLessEq(a, c)
    decreases |a|
  {
    if a != [] && a[0] == b[0] && b[0] == c[0] {
      LexTransitive(a[1..], b[1..], c[1..]);
    }
  }

  lemma {:induction false} LexAntisymmetric(a: string, b: string)
    requires LexLessEq(a, b) && LexLessEq(b, a)
    ensures a == b
    decreases |a|
  {
    if a != [] {
      LexAntisymmetric(a[1..], b[1..]);
      assert a == [a[0]] + a[1..] && b == [b[0]] + b[1..];
    }
  }

  /** options.sort(); options[0]: the first option in string order. */
  method LexFirst(options: seq<string>) returns (r: string)
    requires |options| > 0
    ensures r in options && forall o :: o in options ==> LexLessEq(r, o)
  {
    r := options[0];
    LexTotal(r, r);
    for i := 1 to |options|
      invariant r in options[..i] && forall j :: 0 <= j < i ==> LexLessEq(r, options[j])
    {
      LexTotal(r, options[i]);
      if !LexLessEq(r, options[i]) {
        LexTotal(options[i], options[i]);
        forall j | 0 <= j < i ensures LexLessEq(options[i], options[j]) {
          LexTransitive(options[i], r, options[j]);
        }
        r := options[i];
      }
      assert options[..i + 1] == options[..i] + [options[i]];
    }
  }

  // ------------------------------------------------------------ minconflict

  /** The tie-breaking rules, most important first. */
  const Rules: seq<Contest> := [ConflictRule, NeighborRule, PopularityRule]

  /** x is a candidate that survives the first j rules. */
  ghost predicate Optimal(cands: seq<string>, j: nat, x: string)
    requires j <= 3
    decreases j, 0
  {
    x in cands && (j == 0 || Improves(cands, j - 1, x))
  }

  /** x survives rule p: it survives the rules before p and scores best by rule p among those survivors. */
  ghost predicate Improves(cands: seq<string>, p: nat, x: string)
    requires p < 3
    decreases p, 1
  {
    Optimal(cands, p, x) && forall y :: Optimal(cands, p, y) ==> Scorer(Rules[p])(y) <= Scorer(Rules[p])(x)
  }

  /** One round of eliminate turns the survivors of j rules into the survivors of j + 1. */
  lemma OptimalStep(cands: seq<string>, j: nat, options: seq<string>)
    requires j < 3 && |options| > 0
    requires forall x :: x in options <==> Optimal(cands, j, x)
    ensures |EliminateOf(options, Scorer(Rules[j]))| > 0
    ensures forall x :: x in EliminateOf(options, Scorer(Rules[j])) <==> Optimal(cands, j + 1, x)
  {
    EliminatedWinners(options, Scorer(Rules[j]));
  }

  /** A single survivor survives every later rule too. */
  lemma {:induction false} OptimalSingle(cands: seq<string>, j: nat, x: string)
    requires j <= 3
    requires forall y :: Optimal(cands, j, y) <==> y == x
    ensures forall y :: Optimal(cands, 3, y) <==> y == x
    decreases 3 - j
  {
    if j < 3 {
      var k := j + 1;
      forall y ensures Optimal(cands, k, y) <==> y == x {
        if y == x {
          assert Improves(cands, j, x);
        }
      }
      OptimalSingle(cands, k, x);
    }
  }

  /** Surviving more rules implies surviving fewer. */
  lemma {:induction false} OptimalDescends(cands: seq<string>, j: nat, k: nat, x: string)
    requires k <= j <= 3 && Optimal(cands, j, x)
    ensures Optimal(cands, k, x)
    decreases j
  {
    if k < j {
      OptimalDescends(cands, j - 1, k, x);
    }
  }

  /** The minconflict answer for pcs: the survivor of all rules that comes first in string order. */
  ghost predicate MinConflictAnswer(pcs: seq<int>, r: string)
    requires InRange(pcs)
  {
    Optimal(Candidates(pcs), 3, r) && forall y :: Optimal(Candidates(pcs), 3, y) ==> LexLessEq(r, y)
  }

  /**
   * minconflict(pcs): builds every spelling, joins each into a string and
   * narrows the strings down to one.
   */
  method MinConflict(pcs: PcSet) returns (r: string)
    ensures MinConflictAnswer(pcs, r)
  {
    var spellings := Options(pcs);
    var options := seq(|spellings|, i requires 0 <= i < |spellings| => JoinWords(spellings[i]));
    assert options == Candidates(pcs);
    SpellingsCount(pcs);
    r := Narrow(options);
  }

  /**
   * The contest at the end of minconflict: eliminates by conflict, then
   * neighbour conflict, then popularity, while more than one option remains,
   * and settles what is left by string order.
   */
  method Narrow(cands: seq<string>) returns (r: string)
    requires |cands| > 0
    ensures Optimal(cands, 3, r) && forall y :: Optimal(cands, 3, y) ==> LexLessEq(r, y)
  {
    var options := cands;
    var ranking := [PopularityRule, NeighborRule, ConflictRule];
    ghost var j: nat := 0;
    while |options| > 1 && ranking != []
      invariant j <= 3 && ranking == Reversed(Rules[j..]) && |options| > 0
      invariant forall x :: x in options <==> Optimal(cands, j, x)
      decreases |ranking|
    {
      var contest := ranking[|ranking| - 1];
      ranking := ranking[..|ranking| - 1];
      NextRule(j);
      OptimalStep(cands, j, options);
      options := Eliminate(options, contest);
      j := j + 1;
    }
    if |options| > 1 {
      assert j == 3;
      r := LexFirst(options);
    } else {
      r := options[0];
      SoleSurvivor(cands, j, options);
    }
  }

  /** The rules still to apply after j rounds, in the order the ranking list pops them. */
  function Reversed(rs: seq<Contest>): (r: seq<Contest>)
    ensures |r| == |rs|
  {
    if rs == [] then [] else Reversed(rs[1..]) + [rs[0]]
  }

  lemma NextRule(j: nat)
    requires j < 3
    ensures Reversed(Rules[j..]) == Reversed(Rules[j + 1..]) + [Rules[j]]
  {
    assert Rules[j..][1..] == Rules[j + 1..];
  }

  /** A single survivor after j rounds is the answer. */
  lemma SoleSurvivor(cands: seq<string>, j: nat, options: seq<string>)
    requires j <= 3 && |options| == 1
    requires forall x :: x in options <==> Optimal(cands, j, x)
    ensures Optimal(cands, 3, options[0]) && forall y :: Optimal(cands, 3, y) ==> LexLessEq(options[0], y)
  {
    var r := options[0];
    assert forall y :: Optimal(cands, j, y) <==> y == r;
    OptimalSingle(cands, j, r);
    LexTotal(r, r);
  }

  /** The answer has the least name conflict of all candidates. */
  lemma MinConflictLeastConflict(pcs: seq<int>, r: string)
    requires InRange(pcs) && MinConflictAnswer(pcs, r)
    ensures r in Candidates(pcs)
    ensures forall y :: y in Candidates(pcs) ==> ConflictOf(y) <= ConflictOf(r)
  {
    OptimalDescends(Candidates(pcs), 3, 1, r);
    forall y | y in Candidates(pcs) ensures ConflictOf(y) <= ConflictOf(r) {
      assert Optimal(Candidates(pcs), 0, y);
    }
  }

  /** The answer is unique. */
  lemma MinConflictUnique(pcs: seq<int>, r: string, s: string)
    requires InRange(pcs) && MinConflictAnswer(pcs, r) && MinConflictAnswer(pcs, s)
    ensures r == s
  {
    LexAntisymmetric(r, s);
  }

  // ------------------------------------------------------------------ notes

  /** The unicode form of a name character: flat and sharp signs replace 'b' and '#'. */
  function StyleChar(c: char): char {
    if c == 'b' then UFlat else if c == '#' then USharp else c
  }

  /** The final formatting of notes() for unicode output. */
  function Unicode(s: string): (r: string)
    ensures |r| == |s|
  {
    seq(|s|, i requires 0 <= i < |s| => StyleChar(s[i]))
  }

  /** The text as notes() formats it, unicode or not. */
  function Styled(s: string, u: bool): string {
    if u then Unicode(s) else s
  }

  lemma StyledConcat(a: string, b: string, u: bool)
    ensures Styled(a + b, u) == Styled(a, u) + Styled(b, u)
  {
  }

  /** Formatting the names one by one. */
  function StyleWords(ws: seq<string>, u: bool): (r: seq<string>)
    ensures |r| == |ws|
  {
    seq(|ws|, i requires 0 <= i < |ws| => Styled(ws[i], u))
  }

  /** Formatting the joined names is joining the formatted names. */
  lemma {:induction false} StyledJoin(ws: seq<string>, u: bool)
    ensures Styled(JoinWords(ws), u) == JoinWords(StyleWords(ws, u))
    decreases |ws|
  {
    if |ws| > 1 {
      var init := ws[..|ws| - 1];
      StyledJoin(init, u);
      StyledConcat(JoinWords(init) + " ", ws[|ws| - 1], u);
      StyledConcat(JoinWords(init), " ", u);
      assert StyleWords(ws, u)[..|ws| - 1] == StyleWords(init, u);
    }
  }

  /** A formatted name reads as the same pitch class. */
  lemma StyledName(w: string, u: bool)
    requires |w| > 0 && IsWord(w) && w[0] in Letters && PitchclassOf(w).Ok?
    ensures |Styled(w, u)| > 0 && IsWord(Styled(w, u))
    ensures PitchclassOf(Styled(w, u)) == PitchclassOf(w)
  {
    if u {
      var v := Unicode(w);
      assert v[0] == w[0];
      if |w| == 2 {
        assert v == [w[0], StyleChar(w[1])];
        ReadPair(w, w[0], w[1]);
        ReadPair(v, w[0], StyleChar(w[1]));
      } else {
        assert v == [w[0]];
      }
    }
  }

  /** A letter and an accidental read as the letter's value plus the offset. */
  lemma ReadPair(w: string, l: char, a: char)
    requires w == [l, a] && l in Letters && IsAccidental(a)
    ensures PitchclassOf(w) == Ok(ScaleIndex(l) + Offset(a))
  {
  }

  /** Each formatted name of a spelling is a word naming its pitch class. */
  lemma StyledSpelling(pcs: PcSet, c: seq<string>, u: bool)
    requires IsSpelling(c, pcs)
    ensures var sc := StyleWords(c, u);
      forall i :: 0 <= i < |c| ==> IsWord(sc[i]) && PitchclassOf(sc[i]) == Ok(pcs[i])
  {
    var sc := StyleWords(c, u);
    forall i | 0 <= i < |c| ensures IsWord(sc[i]) && PitchclassOf(sc[i]) == Ok(pcs[i]) {
      FlatRoundTrip(pcs[i]);
      SharpRoundTrip(pcs[i]);
      StyledName(c[i], u);
    }
  }

  /** Words that read as the values xs give back xs. */
  lemma {:induction false} ReadBack(ws: seq<string>, xs: seq<int>)
    requires |ws| == |xs|
    requires forall i :: 0 <= i < |ws| ==> |ws[i]| > 0 && PitchclassOf(ws[i]) == Ok(xs[i])
    ensures Pitchclasses(ws) == Ok(xs)
  {
    var r := Pitchclasses(ws);
    assert r.Ok?;
    assert forall i :: 0 <= i < |xs| ==> r.value[i] == xs[i];
    assert r.value == xs;
  }

  /** The constructor gives a pitch class set back unchanged. */
  lemma BuildOfPcSet(pcs: PcSet)
    ensures Build(Items(Nums(pcs))) == Ok(pcs)
  {
    UnionBuilds(pcs, []);
    assert pcs + [] == pcs;
    DedupOfDistinct(pcs);
  }

  /** Reading a spelling, formatted or not, gives back the set. */
  lemma {:induction false} SpellingRoundTrip(pcs: PcSet, c: seq<string>, u: bool)
    requires IsSpelling(c, pcs)
    ensures Pcfor(Text(Styled(JoinWords(c), u))) == Ok(pcs)
  {
    var sc := StyleWords(c, u);
    StyledSpelling(pcs, c, u);
    StyledJoin(c, u);
    WordsOfJoin(sc);
    ReadBack(sc, pcs);
    BuildOfPcSet(pcs);
  }

  /** The flat names joined by spaces. */
  function FlatNames(pcs: PcSet): string {
    JoinWords(seq(|pcs|, i requires 0 <= i < |pcs| => Flat(pcs[i])))
  }

  /** The sharp names joined by spaces. */
  function SharpNames(pcs: PcSet): string {
    JoinWords(seq(|pcs|, i requires 0 <= i < |pcs| => Sharp(pcs[i])))
  }

  /** The minconflict answer is one of the spellings. */
  lemma AnswerIsSpelling(pcs: PcSet, m: string) returns (c: seq<string>)
    requires MinConflictAnswer(pcs, m)
    ensures IsSpelling(c, pcs) && m == JoinWords(c)
  {
    var s := SpellingsOf(pcs);
    var i :| 0 <= i < |s| && Candidates(pcs)[i] == m;
    c := s[i];
    SpellingsSound(pcs, c);
  }

  /** Whether notes() writes unicode signs: a unicode preference or a unicode input. */
  predicate UnicodeOutput(pref: string, unicode: bool) {
    unicode || pref == [UFlat] || pref == [USharp]
  }

  /** What notes() answers for the set pcs. */
  ghost predicate NotesAnswer(pcs: PcSet, pref: string, unicode: bool, s: string) {
    var u := UnicodeOutput(pref, unicode);
    if pref == "b" || pref == [UFlat] then s == Styled(FlatNames(pcs), u)
    else if pref == "#" || pref == [USharp] then s == Styled(SharpNames(pcs), u)
    else exists m :: MinConflictAnswer(pcs, m) && s == Styled(m, u)
  }

  /**
   * notes(pcslist, pref): builds the set, names it with flats, sharps or the
   * minimum-conflict spelling, and writes unicode signs when asked to.
   */
  method Notes(d: Definition, pref: string, unicode: bool) returns (r: Result<string, DefinitionError>)
    ensures Build(d).Err? ==> r == Err(Build(d).error)
    ensures Build(d).Ok? ==> r.Ok? && NotesAnswer(Build(d).value, pref, unicode, r.value)
    ensures r.Ok? ==> Pcfor(Text(r.value)) == Ok(Build(d).value)
  {
    var built := FromDefinition(d);
    if built.Err? {
      return Err(built.error);
    }
    var pcs := built.value;
    var stringform: string;
    ghost var names: seq<string>;
    if pref == "b" || pref == [UFlat] {
      names := seq(|pcs|, i requires 0 <= i < |pcs| => Flat(pcs[i]));
      stringform := FlatNames(pcs);
    } else if pref == "#" || pref == [USharp] {
      names := seq(|pcs|, i requires 0 <= i < |pcs| => Sharp(pcs[i]));
      stringform := SharpNames(pcs);
    } else {
      stringform := MinConflict(pcs);
      names := AnswerIsSpelling(pcs, stringform);
    }
    assert IsSpelling(names, pcs) && stringform == JoinWords(names);
    var u := UnicodeOutput(pref, unicode);
    SpellingRoundTrip(pcs, names, u);
    if u {
      stringform := Unicode(stringform);
    }
    return Ok(stringform);
  }

  // --------------------------------------------------------------- examples

  /** Joining one more word. */
  lemma {:induction false} JoinStep(ws: seq<string>, w: string)
    requires ws != []
    ensures JoinWords(ws + [w]) == JoinWords(ws) + " " + w
  {
    assert (ws + [w])[..|ws|] == ws;
  }

  lemma {:induction false} JoinNaturals(c: seq<string>)
    requires c == ["A", "B", "C", "D", "E", "F", "G"]
    ensures JoinWords(c) == "A B C D E F G"
  {
    var ws: seq<string> := ["A"];
    var s := "A";
    assert JoinWords(ws) == s;
    var i := 1;
    while i < |c|
      invariant 1 <= i <= |c| && ws == c[..i] && JoinWords(ws) == s
      invariant |s| == 2 * i - 1
      invariant forall k :: 0 <= k < |s| ==> s[k] == "A B C D E F G"[k]
    {
      JoinStep(ws, c[i]);
      assert c[..i + 1] == ws + [c[i]];
      ws, s := ws + [c[i]], s + " " + c[i];
      i := i + 1;
    }
    assert ws == c;
    assert s == "A B C D E F G";
  }

  /** Natural names spell the set their pitch classes make. */
  lemma PcforExample(spec: Spec)
    requires spec == Text("A B C D E F G")
    ensures Pcfor(spec) == Ok([9, 11, 0, 2, 4, 5, 7])
  {
    var pcs: PcSet := NaturalKeys();
    var c := ["A", "B", "C", "D", "E", "F", "G"];
    NaturalsSpell(pcs, c);
    JoinNaturals(c);
    SpellingRoundTrip(pcs, c, false);
  }

  /** The white keys, in the order A B C D E F G. */
  function NaturalKeys(): (r: PcSet)
    ensures r == [9, 11, 0, 2, 4, 5, 7]
  {
    var s := [9, 11, 0, 2, 4, 5, 7];
    assert IsPcSet(s) by {
      forall i, j | 0 <= i < j < |s| ensures s[i] != s[j] { }
    }
    s
  }

  lemma NaturalsSpell(pcs: seq<int>, c: seq<string>)
    requires pcs == [9, 11, 0, 2, 4, 5, 7] && c == ["A", "B", "C", "D", "E", "F", "G"]
    ensures InRange(pcs) && IsSpelling(c, pcs)
  {
    forall i | 0 <= i < 7 ensures c[i] == Flat(pcs[i]) {
      assert IsNatural(pcs[i]);
    }
  }

  /** Every preference names the empty set with the empty string. */
  lemma NotesOfEmpty(pcs: PcSet, pref: string, unicode: bool, s: string)
    requires pcs == [] && NotesAnswer(pcs, pref, unicode, s)
    ensures s == ""
  {
    if !(pref == "b" || pref == [UFlat] || pref == "#" || pref == [USharp]) {
      var m :| MinConflictAnswer(pcs, m) && s == Styled(m, UnicodeOutput(pref, unicode));
      var c := AnswerIsSpelling(pcs, m);
    }
  }
}
