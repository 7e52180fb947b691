/**
 * The question bank: the row normaliser and filter of `loadSheet` (js/script.js:138-157), the
 * list of categories present in the bank (js/script.js:161-162), the simulated-test quotas
 * (js/script.js:3-19), the order-free answer check of `validateAnswer` (js/script.js:295-297)
 * and the per-category draws of `prepareSimulated` (js/script.js:382-401).
 */
module Bank {
  import opened Text
  import opened Helpers
  import opened Shuffle
  import opened Sorting

  /** One row of the sheet: column name to cell text. */
  type Row = map<string, string>

  /** The four option fields, `A` to `D`. */
  datatype Choices = Choices(a: string, b: string, c: string, d: string)

  datatype Question = Question(
    id: string,
    text: string,
    image: string,
    options: Choices,
    optionImages: Choices,
    correct: seq<string>,
    category: string,
    explanation: string)

  /** The option letters, in the order the option buttons are laid out. */
  const Letters: seq<string> := ["A", "B", "C", "D"]

  /** The option text under `letter`; the empty string for any key other than the four letters. */
  function Choice(o: Choices, letter: string): string
  {
    if letter == "A" then o.a
    else if letter == "B" then o.b
    else if letter == "C" then o.c
    else if letter == "D" then o.d
    else ""
  }

  // Row normalisation

  /** `r[key]`, with a missing key read as the empty string. */
  function Get(r: Row, key: string): string
  {
    if key in r then r[key] else ""
  }

  /** `keys[k]` is the first of `keys` whose cell in `r` is not empty. */
  predicate FirstFilled(r: Row, keys: seq<string>, k: int)
  {
    0 <= k < |keys| && Get(r, keys[k]) != "" && forall j :: 0 <= j < k ==> Get(r, keys[j]) == ""
  }

  /** The value of the first key whose cell is not empty; the empty string when every cell is. */
  function FirstOf(r: Row, keys: seq<string>): (v: string)
    ensures v == "" <==> forall k :: 0 <= k < |keys| ==> Get(r, keys[k]) == ""
    ensures v != "" ==> exists k :: FirstFilled(r, keys, k) && v == Get(r, keys[k])
  {
    if keys == [] then ""
    else if Get(r, keys[0]) != "" then
      assert FirstFilled(r, keys, 0);
      Get(r, keys[0])
    else
      var v := FirstOf(r, keys[1..]);
      assert v != "" ==> exists k :: FirstFilled(r, keys, k) && v == Get(r, keys[k]) by {
        if v != "" {
          var k :| FirstFilled(r, keys[1..], k) && v == Get(r, keys[1..][k]);
          assert keys[1..][k] == keys[k + 1];
          forall j | 0 < j < k + 1 ensures Get(r, keys[j]) == "" {
            assert keys[j] == keys[1..][j - 1];
          }
          assert FirstFilled(r, keys, k + 1);
        }
      }
      v
  }

  /** The answer field with every white space character removed and the rest kept in order. */
  function RemoveSpaces(s: string): (r: string)
    ensures r == Without(s, Spaces)
    ensures SpaceFree(r)
  {
    SpacesAreSpace(if s == [] then ' ' else s[0]);
    if s == [] then [] else (if IsSpace(s[0]) then [] else [s[0]]) + RemoveSpaces(s[1..])
  }

  /** Every comma of the answer field turned into a semicolon, position by position. */
  function CommasToSemicolons(s: string): (r: string)
    ensures |r| == |s| && forall i :: 0 <= i < |s| ==> r[i] == if s[i] == ',' then ';' else s[i]
    ensures NoneOf(r, {','})
  {
    if s == [] then [] else [if s[0] == ',' then ';' else s[0]] + CommasToSemicolons(s[1..])
  }

  /** The pieces that are not empty, in order. */
  function NonEmpty(parts: seq<string>): (r: seq<string>)
    ensures forall k :: 0 <= k < |r| ==> r[k] != "" && r[k] in parts
    ensures Concat(r) == Concat(parts)
    ensures (forall k :: 0 <= k < |parts| ==> parts[k] != "") ==> r == parts
  {
    if parts == [] then []
    else
      var rest := NonEmpty(parts[1..]);
      if parts[0] == "" then rest
      else
        var r := [parts[0]] + rest;
        assert r[1..] == rest;
        r
  }

  /** Each piece upper-cased. */
  function UpperAll(parts: seq<string>): (r: seq<string>)
    ensures |r| == |parts|
    ensures forall k :: 0 <= k < |r| ==> r[k] == Upper(parts[k])
  {
    if parts == [] then [] else [Upper(parts[0])] + UpperAll(parts[1..])
  }

  /** No white space in `s`. */
  predicate SpaceFree(s: string)
  {
    forall i :: 0 <= i < |s| ==> !IsSpace(s[i])
  }

  /** The answer-key parse: white space dropped, split on `,` or `;`, empty pieces dropped, upper-cased. */
  function CorrectLetters(raw: string): (r: seq<string>)
    ensures forall k :: 0 <= k < |r| ==> r[k] != "" && NoneOf(r[k], {',', ';'})
    ensures forall k :: 0 <= k < |r| ==> SpaceFree(r[k]) && forall i :: 0 <= i < |r[k]| ==> !IsLower(r[k][i])
  {
    var cleaned := CommasToSemicolons(RemoveSpaces(raw));
    var parts := Split(cleaned, {';'});
    var pieces := NonEmpty(parts);
    var r := UpperAll(pieces);
    CommasKeepSpaces(RemoveSpaces(raw));
    PiecesOf(cleaned, {';'}, {','});
    PiecesSpaceFree(cleaned, {';'});
    forall k | 0 <= k < |r|
      ensures r[k] != "" && NoneOf(r[k], {',', ';'}) && SpaceFree(r[k])
    {
      var p := pieces[k];
      var m :| 0 <= m < |parts| && parts[m] == p;
      UpperKeeps(p);
    }
    r
  }

  /** Upper-casing leaves white space, `,` and `;` where they are. */
  lemma UpperKeeps(p: string)
    ensures NoneOf(p, {',', ';'}) ==> NoneOf(Upper(p), {',', ';'})
    ensures SpaceFree(p) ==> SpaceFree(Upper(p))
  {
    forall i | 0 <= i < |p| ensures Upper(p)[i] == UpperChar(p[i]) {}
  }

  lemma {:induction false} CommasKeepSpaces(t: string)
    requires SpaceFree(t)
    ensures SpaceFree(CommasToSemicolons(t))
    decreases |t|
  {
    if t != [] {
      CommasKeepSpaces(t[1..]);
      var c := CommasToSemicolons(t);
      forall i | 0 < i < |c| ensures !IsSpace(c[i]) {
        assert c[i] == CommasToSemicolons(t[1..])[i - 1];
      }
    }
  }

  /** A split of space-free text gives space-free pieces. */
  lemma {:induction false} PiecesSpaceFree(s: string, seps: set<char>)
    requires SpaceFree(s)
    ensures forall k :: 0 <= k < |Split(s, seps)| ==> SpaceFree(Split(s, seps)[k])
    decreases |s|
  {
    if s != [] {
      PiecesSpaceFree(s[1..], seps);
      var rest := Split(s[1..], seps);
      if s[0] !in seps {
        var p := [[s[0]] + rest[0]] + rest[1..];
        assert forall k :: 1 <= k < |p| ==> p[k] == rest[k];
      }
    }
  }

  lemma {:induction false} ConcatUpperAll(parts: seq<string>)
    ensures Concat(UpperAll(parts)) == Upper(Concat(parts))
    decreases |parts|
  {
    if parts != [] {
      ConcatUpperAll(parts[1..]);
      UpperConcat(parts[0], Concat(parts[1..]));
      assert UpperAll(parts)[1..] == UpperAll(parts[1..]);
    }
  }

  lemma {:induction false} WithoutCommas(u: string)
    ensures Without(CommasToSemicolons(u), {';'}) == Without(u, {',', ';'})
    decreases |u|
  {
    if u != [] {
      WithoutCommas(u[1..]);
      assert CommasToSemicolons(u)[1..] == CommasToSemicolons(u[1..]);
    }
  }

  /**
   * The answer key keeps every character of the field that is not white space, `,` or `;`,
   * in order and upper-cased: the letters laid end to end are the field with those removed.
   */
  lemma CorrectLettersContent(raw: string)
    ensures Concat(CorrectLetters(raw)) == Upper(Without(RemoveSpaces(raw), {',', ';'}))
  {
    var cleaned := CommasToSemicolons(RemoveSpaces(raw));
    var parts := Split(cleaned, {';'});
    ConcatUpperAll(NonEmpty(parts));
    ConcatSplit(cleaned, {';'});
    WithoutCommas(RemoveSpaces(raw));
  }

  /** Comma-separated text without commas is unchanged. */
  lemma CommasNone(s: string)
    requires NoneOf(s, {','})
    ensures CommasToSemicolons(s) == s
  {
  }

  /** Comma replacement works piece by piece. */
  lemma CommasAppend(a: string, b: string)
    ensures CommasToSemicolons(a + b) == CommasToSemicolons(a) + CommasToSemicolons(b)
  {
  }

  /** Pieces without commas, joined by `,`, turn into the same pieces joined by `;`. */
  lemma {:induction false} CommasJoin(ps: seq<string>)
    requires |ps| >= 1 && forall k :: 0 <= k < |ps| ==> NoneOf(ps[k], {','})
    ensures CommasToSemicolons(Join(ps, ',')) == Join(ps, ';')
    decreases |ps|
  {
    CommasNone(ps[0]);
    if |ps| > 1 {
      CommasJoin(ps[1..]);
      CommasAppend(ps[0] + [','], Join(ps[1..], ','));
      CommasAppend(ps[0], [',']);
    }
  }

  /**
   * The answer-key parse cuts exactly at the separators: letters written as non-empty,
   * space-free entries joined by `,` or by `;` come back one entry per letter, upper-cased.
   */
  lemma CorrectLettersJoin(ps: seq<string>, sep: char)
    requires |ps| >= 1 && (sep == ',' || sep == ';')
    requires forall k :: 0 <= k < |ps| ==> ps[k] != "" && NoneOf(ps[k], {',', ';'}) && SpaceFree(ps[k])
    ensures CorrectLetters(Join(ps, sep)) == UpperAll(ps)
  {
    var joined := Join(ps, sep);
    forall k | 0 <= k < |ps| ensures NoneOf(ps[k], Spaces) {
      forall i | 0 <= i < |ps[k]| ensures ps[k][i] !in Spaces {
        SpacesAreSpace(ps[k][i]);
      }
    }
    SpacesAreSpace(sep);
    JoinNoneOf(ps, sep, Spaces);
    WithoutNone(joined, Spaces);
    assert RemoveSpaces(joined) == joined;
    if sep == ',' {
      CommasJoin(ps);
    } else {
      JoinNoneOf(ps, sep, {','});
      CommasNone(joined);
    }
    SplitJoin(ps, ';', {';'});
  }

  /** The normalised question built from row `r` at position `idx` of the data. */
  function ToQuestion(r: Row, idx: nat): (q: Question)
    ensures q.id != ""
    ensures Get(r, "id") != "" ==> q.id == Get(r, "id")
    ensures Get(r, "id") == "" ==> AllDigits(q.id) && ValueOf(q.id) == idx + 1
    ensures Trimmed(q.category)
  {
    Question(
      id := if Get(r, "id") != "" then Get(r, "id") else Decimal(idx + 1),
      text := FirstOf(r, ["question", "pergunta"]),
      image := FirstOf(r, ["questionImage", "questionimage", "image"]),
      options := Choices(
        FirstOf(r, ["optionA", "A"]), FirstOf(r, ["optionB", "B"]),
        FirstOf(r, ["optionC", "C"]), FirstOf(r, ["optionD", "D"])),
      optionImages := Choices(
        FirstOf(r, ["optionAImage", "optionaimage"]), FirstOf(r, ["optionBImage", "optionbimage"]),
        FirstOf(r, ["optionCImage", "optioncimage"]), FirstOf(r, ["optionDImage", "optiondimage"])),
      correct := CorrectLetters(FirstOf(r, ["correct", "answer"])),
      category := Trim(Get(r, "category")),
      explanation := Get(r, "explanation"))
  }

  /** A question is kept when it has text and at least one non-empty option. */
  predicate Keep(q: Question)
  {
    q.text != "" && exists l :: l in Letters && Choice(q.options, l) != ""
  }

  /** The questions that pass the filter, in their order. */
  function KeepValid(qs: seq<Question>): (r: seq<Question>)
    ensures |r| <= |qs| && forall k :: 0 <= k < |r| ==> Keep(r[k])
    ensures forall q :: q in r <==> q in qs && Keep(q)
    ensures forall q :: multiset(r)[q] == if Keep(q) then multiset(qs)[q] else 0
  {
    if qs == [] then []
    else
      var rest := KeepValid(qs[1..]);
      assert qs == [qs[0]] + qs[1..];
      assert forall q :: q in qs <==> q == qs[0] || q in qs[1..];
      if Keep(qs[0]) then [qs[0]] + rest else rest
  }

  /** The kept questions are in their original order. */
  lemma {:induction false} KeepValidOrder(qs: seq<Question>)
    ensures IsSubseq(KeepValid(qs), qs)
    decreases |qs|
  {
    if qs != [] {
      var rest := KeepValid(qs[1..]);
      KeepValidOrder(qs[1..]);
      if Keep(qs[0]) {
        assert ([qs[0]] + rest)[1..] == rest;
      } else if rest != [] {
        assert rest[0] in rest;
      }
    }
  }

  /** The rows mapped to questions, each with its index in the data. */
  function Normalised(rows: seq<Row>): (qs: seq<Question>)
    ensures |qs| == |rows|
    ensures forall i :: 0 <= i < |rows| ==> qs[i] == ToQuestion(rows[i], i)
  {
    seq(|rows|, i requires 0 <= i < |rows| => ToQuestion(rows[i], i))
  }

  /** `allQuestions` after `loadSheet`. */
  function LoadQuestions(rows: seq<Row>): (qs: seq<Question>)
    ensures |qs| <= |rows| && forall k :: 0 <= k < |qs| ==> Keep(qs[k])
  {
    KeepValid(Normalised(rows))
  }

  /**
   * The bank holds exactly the normalised rows that have question text and an option, each
   * as often as in the data, in data order.
   */
  lemma LoadQuestionsCounts(rows: seq<Row>)
    ensures forall q :: multiset(LoadQuestions(rows))[q] == if Keep(q) then multiset(Normalised(rows))[q] else 0
    ensures IsSubseq(LoadQuestions(rows), Normalised(rows))
  {
    KeepValidOrder(Normalised(rows));
  }

  /** A row's question is in the bank exactly when it passes the filter; each has a non-empty id. */
  lemma LoadQuestionsSpec(rows: seq<Row>)
    ensures forall q :: q in LoadQuestions(rows) ==> Keep(q) && q.id != ""
    ensures forall i :: 0 <= i < |rows| ==> (ToQuestion(rows[i], i) in LoadQuestions(rows) <==> Keep(ToQuestion(rows[i], i)))
  {
    var qs := Normalised(rows);
    assert forall i :: 0 <= i < |qs| ==> qs[i].id != "";
    forall q | q in LoadQuestions(rows) ensures q.id != "" {
      assert q in qs;
    }
  }

  // Categories

  const Categories: seq<string> := [
    "Network Fundamentals",
    "Network Access",
    "IP Connectivity",
    "IP Services",
    "Security Fundamentals",
    "Automation & Programmability"
  ]

  /** The elements of `cs` that are in `present`, in the order of `cs`. */
  function Among(cs: seq<string>, present: set<string>): (r: seq<string>)
    ensures forall c :: c in r <==> c in cs && c in present
    ensures IsSubseq(r, cs)
    ensures Distinct(cs) ==> Distinct(r)
  {
    if cs == [] then []
    else
      var rest := Among(cs[1..], present);
      assert forall c :: c in cs <==> c == cs[0] || c in cs[1..];
      if cs[0] in present then
        var r := [cs[0]] + rest;
        assert r[1..] == rest;
        r
      else
        assert rest != [] ==> rest[0] != cs[0];
        rest
  }

  /** The categories of the bank's questions. */
  function CategoriesOf(qs: seq<Question>): set<string>
  {
    set q | q in qs :: q.category
  }

  /** The categories offered in the selector: those of `Categories` that some question has. */
  function PresentCategories(qs: seq<Question>): (r: seq<string>)
    ensures IsSubseq(r, Categories)
    ensures forall c :: c in r <==> c in Categories && c in CategoriesOf(qs)
  {
    Among(Categories, CategoriesOf(qs))
  }

  /**
   * The selector lists a category of `CATEGORIES` exactly when some question has it, in
   * `CATEGORIES` order; a question whose category is not one of them is never offered.
   */
  lemma PresentCategoriesSpec(qs: seq<Question>)
    ensures IsSubseq(PresentCategories(qs), Categories)
    ensures forall c :: c in PresentCategories(qs) <==> c in Categories && exists q :: q in qs && q.category == c
  {
    forall c | c in Categories && (exists q :: q in qs && q.category == c)
      ensures c in CategoriesOf(qs)
    {
      var q :| q in qs && q.category == c;
    }
  }

  // Answer check

  /**
   * Sorted copies of the key and of the selection, compared element by element: the selection
   * is right exactly when it holds the key's letters, each as often, in any order.
   */
  method CheckAnswer(correct: seq<string>, selected: seq<string>) returns (isCorrect: bool)
    ensures isCorrect <==> multiset(correct) == multiset(selected)
  {
    var correctSorted := Sort(correct);
    var selectedSorted := Sort(selected);
    isCorrect := ArraysEqual(correctSorted, selectedSorted);
    SameSortIffSameMultiset(correct, selected);
  }

  // Simulated test quotas

  /** `SIM_CONFIG`, in the order its categories are written, which is the order the draw loop visits them. */
  const SimConfig: seq<(string, nat)> := [
    ("Network Fundamentals", 20),
    ("Network Access", 20),
    ("IP Connectivity", 25),
    ("IP Services", 10),
    ("Security Fundamentals", 15),
    ("Automation & Programmability", 10)
  ]

  /** The sum of the quotas of a table. */
  function Total(cfg: seq<(string, nat)>): nat
  {
    if cfg == [] then 0 else Total(cfg[..|cfg| - 1]) + cfg[|cfg| - 1].1
  }

  /** The names of a quota table, in order. */
  function Names(cfg: seq<(string, nat)>): (r: seq<string>)
    ensures |r| == |cfg| && forall k :: 0 <= k < |cfg| ==> r[k] == cfg[k].0
  {
    seq(|cfg|, k requires 0 <= k < |cfg| => cfg[k].0)
  }

  predicate Distinct(cs: seq<string>)
  {
    forall i, j :: 0 <= i < j < |cs| ==> cs[i] != cs[j]
  }

  /** `SIM_TOTAL` is 100 and the quota table names each of `CATEGORIES` once, in the same order. */
  lemma SimConfigShape()
    ensures Total(SimConfig) == 100
    ensures Names(SimConfig) == Categories && Distinct(Categories)
  {
    var c: seq<(string, nat)> := SimConfig;
    assert |c[..1][..0]| == 0 && Total(c[..1]) == 20;
    assert c[..2][..1] == c[..1] && Total(c[..2]) == 40;
    assert c[..3][..2] == c[..2] && Total(c[..3]) == 65;
    assert c[..4][..3] == c[..3] && Total(c[..4]) == 75;
    assert c[..5][..4] == c[..4] && Total(c[..5]) == 90;
    assert c[..6][..5] == c[..5] && c[..6] == c;
  }

  /** The number of questions of category `cat`. */
  function Count(qs: seq<Question>, cat: string): (n: nat)
    ensures n <= |qs|
  {
    if qs == [] then 0 else Count(qs[..|qs| - 1], cat) + (if qs[|qs| - 1].category == cat then 1 else 0)
  }

  lemma {:induction false} CountAppend(a: seq<Question>, b: seq<Question>, cat: string)
    ensures Count(a + b, cat) == Count(a, cat) + Count(b, cat)
    decreases |b|
  {
    if b == [] {
      assert a + b == a;
    } else {
      CountAppend(a, b[..|b| - 1], cat);
      assert (a + b)[..|a + b| - 1] == a + b[..|b| - 1];
    }
  }

  lemma CountSingle(q: Question, cat: string)
    ensures Count([q], cat) == if q.category == cat then 1 else 0
  {
    assert [q][..0] == [];
  }

  /** Reordering does not change how many questions a category has. */
  lemma {:induction false} CountPermutation(a: seq<Question>, b: seq<Question>, cat: string)
    requires multiset(a) == multiset(b)
    ensures Count(a, cat) == Count(b, cat)
    decreases |a|
  {
    if a == [] {
      assert b == [] by { assert |b| == |multiset(b)|; }
    } else {
      var x := a[0];
      assert x in multiset(b);
      var i :| 0 <= i < |b| && b[i] == x;
      var b' := b[..i] + b[i + 1..];
      assert b == b[..i] + [x] + b[i + 1..];
      assert a == [x] + a[1..];
      assert multiset(b') == multiset(b) - multiset{x};
      CountPermutation(a[1..], b', cat);
      CountAppend([x], a[1..], cat);
      CountAppend(b[..i] + [x], b[i + 1..], cat);
      CountAppend(b[..i], [x], cat);
      CountAppend(b[..i], b[i + 1..], cat);
    }
  }

  /** The questions of category `cat`, in bank order. */
  function OfCategory(qs: seq<Question>, cat: string): (r: seq<Question>)
    ensures |r| == Count(qs, cat)
    ensures forall k :: 0 <= k < |r| ==> r[k].category == cat && r[k] in qs
    ensures forall q :: multiset(r)[q] == if q.category == cat then multiset(qs)[q] else 0
  {
    if qs == [] then []
    else
      var init := OfCategory(qs[..|qs| - 1], cat);
      var last := qs[|qs| - 1];
      assert qs == qs[..|qs| - 1] + [last];
      assert forall q :: q in qs[..|qs| - 1] ==> q in qs;
      if last.category == cat then init + [last] else init
  }

  /** A list that is all of one category counts fully there and not at all elsewhere. */
  lemma {:induction false} CountUniform(qs: seq<Question>, cat: string, other: string)
    requires forall k :: 0 <= k < |qs| ==> qs[k].category == cat
    ensures Count(qs, cat) == |qs|
    ensures other != cat ==> Count(qs, other) == 0
    decreases |qs|
  {
    if qs != [] {
      CountUniform(qs[..|qs| - 1], cat, other);
    }
  }

  /** Every category of the table has at least its quota of questions. */
  predicate QuotasMet(all: seq<Question>, cfg: seq<(string, nat)>)
  {
    forall k :: 0 <= k < |cfg| ==> Count(all, cfg[k].0) >= cfg[k].1
  }

  /** One draw sequence per category of the table, each the right size for its shuffle. */
  predicate ValidCategoryPicks(all: seq<Question>, cfg: seq<(string, nat)>, picks: seq<seq<nat>>)
  {
    |picks| == |cfg| && forall k :: 0 <= k < |cfg| ==> ValidPicks(picks[k], Count(all, cfg[k].0))
  }

  /** The first `quota` questions of category `cat` after shuffling them with `picks`. */
  function Draw(all: seq<Question>, cat: string, quota: nat, picks: seq<nat>): (r: seq<Question>)
    requires ValidPicks(picks, Count(all, cat)) && Count(all, cat) >= quota
    ensures |r| == quota
    ensures forall k :: 0 <= k < |r| ==> r[k].category == cat && r[k] in all
    ensures multiset(r) <= multiset(OfCategory(all, cat))
  {
    var pool := OfCategory(all, cat);
    var shuffled := Shuffled(pool, picks);
    PrefixMultiset(shuffled, quota);
    shuffled[..quota]
  }

  /** The draws of the table's categories, in table order, laid end to end. */
  function Draws(all: seq<Question>, cfg: seq<(string, nat)>, picks: seq<seq<nat>>): (r: seq<Question>)
    requires QuotasMet(all, cfg) && ValidCategoryPicks(all, cfg, picks)
    ensures |r| == Total(cfg)
    ensures forall k :: 0 <= k < |r| ==> r[k] in all
  {
    if cfg == [] then []
    else
      var n := |cfg| - 1;
      var init := Draws(all, cfg[..n], picks[..n]);
      var d := Draw(all, cfg[n].0, cfg[n].1, picks[n]);
      init + d
  }

  /** How many questions of `cat` the draws add over the draws of all but the last category. */
  lemma DrawsStep(all: seq<Question>, cfg: seq<(string, nat)>, picks: seq<seq<nat>>, cat: string)
    requires QuotasMet(all, cfg) && ValidCategoryPicks(all, cfg, picks) && cfg != []
    ensures var n := |cfg| - 1;
      Count(Draws(all, cfg, picks), cat) ==
      Count(Draws(all, cfg[..n], picks[..n]), cat) + (if cat == cfg[n].0 then cfg[n].1 else 0)
  {
    var n := |cfg| - 1;
    var d := Draw(all, cfg[n].0, cfg[n].1, picks[n]);
    CountAppend(Draws(all, cfg[..n], picks[..n]), d, cat);
    CountUniform(d, cfg[n].0, cat);
  }

  /** All but the last table entry keep the quotas, the draws and the distinct names. */
  lemma DropLast(all: seq<Question>, cfg: seq<(string, nat)>, picks: seq<seq<nat>>)
    requires QuotasMet(all, cfg) && ValidCategoryPicks(all, cfg, picks) && Distinct(Names(cfg)) && cfg != []
    ensures var n := |cfg| - 1;
      QuotasMet(all, cfg[..n]) && ValidCategoryPicks(all, cfg[..n], picks[..n]) &&
      Distinct(Names(cfg[..n])) && cfg[n].0 !in Names(cfg[..n]) &&
      Names(cfg) == Names(cfg[..n]) + [cfg[n].0]
  {
    var n := |cfg| - 1;
    assert Names(cfg[..n]) == Names(cfg)[..n];
    assert Names(cfg) == Names(cfg)[..n] + [Names(cfg)[n]];
  }

  /** With distinct category names, the draws hold exactly each category's quota. */
  lemma {:induction false} DrawsCount(all: seq<Question>, cfg: seq<(string, nat)>, picks: seq<seq<nat>>, k: nat)
    requires QuotasMet(all, cfg) && ValidCategoryPicks(all, cfg, picks)
    requires Distinct(Names(cfg)) && k < |cfg|
    ensures Count(Draws(all, cfg, picks), cfg[k].0) == cfg[k].1
    decreases |cfg|
  {
    var n := |cfg| - 1;
    var cat := cfg[k].0;
    var init, initPicks := cfg[..n], picks[..n];
    DrawsStep(all, cfg, picks, cat);
    DropLast(all, cfg, picks);
    if k < n {
      assert Names(cfg)[k] == cat && Names(cfg)[n] == cfg[n].0;
      assert init[k] == cfg[k];
      DrawsCount(all, init, initPicks, k);
    } else {
      DrawsNone(all, init, initPicks, cat);
    }
  }

  /** A category outside the table's names is never drawn. */
  lemma {:induction false} DrawsNone(all: seq<Question>, cfg: seq<(string, nat)>, picks: seq<seq<nat>>, cat: string)
    requires QuotasMet(all, cfg) && ValidCategoryPicks(all, cfg, picks)
    requires cat !in Names(cfg)
    ensures Count(Draws(all, cfg, picks), cat) == 0
    decreases |cfg|
  {
    if cfg != [] {
      var n := |cfg| - 1;
      var d := Draw(all, cfg[n].0, cfg[n].1, picks[n]);
      assert Names(cfg[..n]) == Names(cfg)[..n];
      assert Names(cfg)[n] == cfg[n].0;
      DrawsNone(all, cfg[..n], picks[..n], cat);
      CountAppend(Draws(all, cfg[..n], picks[..n]), d, cat);
      CountUniform(d, cfg[n].0, cat);
    }
  }

  /** The draws are the draws of all but the last entry followed by the last entry's draw. */
  lemma DrawsLast(all: seq<Question>, cfg: seq<(string, nat)>, picks: seq<seq<nat>>)
    requires QuotasMet(all, cfg) && ValidCategoryPicks(all, cfg, picks) && cfg != []
    ensures var n := |cfg| - 1;
      QuotasMet(all, cfg[..n]) && ValidCategoryPicks(all, cfg[..n], picks[..n]) &&
      Draws(all, cfg, picks) == Draws(all, cfg[..n], picks[..n]) + Draw(all, cfg[n].0, cfg[n].1, picks[n])
  {
  }

  /** A question of category `cat` appended after draws of other categories. */
  lemma CountBound(init: seq<Question>, d: seq<Question>, all: seq<Question>, names: seq<string>, cat: string, q: Question)
    requires multiset(init)[q] <= if q.category in names then multiset(all)[q] else 0
    requires multiset(d)[q] <= if q.category == cat then multiset(all)[q] else 0
    requires cat !in names
    ensures multiset(init + d)[q] <= if q.category in names + [cat] then multiset(all)[q] else 0
  {
  }

  /**
   * With distinct category names, the draws take no question more often than the bank holds
   * it, and only questions of the table's categories.
   */
  lemma {:induction false} DrawsWithinBank(all: seq<Question>, cfg: seq<(string, nat)>, picks: seq<seq<nat>>)
    requires QuotasMet(all, cfg) && ValidCategoryPicks(all, cfg, picks) && Distinct(Names(cfg))
    ensures forall q :: multiset(Draws(all, cfg, picks))[q] <= if q.category in Names(cfg) then multiset(all)[q] else 0
    decreases |cfg|
  {
    if cfg != [] {
      var n := |cfg| - 1;
      var cat := cfg[n].0;
      var init := Draws(all, cfg[..n], picks[..n]);
      var d := Draw(all, cat, cfg[n].1, picks[n]);
      DrawsLast(all, cfg, picks);
      DropLast(all, cfg, picks);
      DrawsWithinBank(all, cfg[..n], picks[..n]);
      forall q: Question
        ensures multiset(init + d)[q] <= if q.category in Names(cfg) then multiset(all)[q] else 0
      {
        assert multiset(d)[q] <= multiset(OfCategory(all, cat))[q];
        CountBound(init, d, all, Names(cfg[..n]), cat, q);
      }
    }
  }

  /** With distinct category names the test is drawn without replacement. */
  lemma DrawsSubBank(all: seq<Question>, cfg: seq<(string, nat)>, picks: seq<seq<nat>>)
    requires QuotasMet(all, cfg) && ValidCategoryPicks(all, cfg, picks) && Distinct(Names(cfg))
    ensures multiset(Draws(all, cfg, picks)) <= multiset(all)
  {
    DrawsWithinBank(all, cfg, picks);
    var drawn := Draws(all, cfg, picks);
    assert forall q :: multiset(drawn)[q] <= multiset(all)[q];
  }
}
