/**
 * The grading script (tests/grade.py): it folds a test manifest and a test
 * report into per-category counts and scores and per-assignment totals,
 * then picks what to emit from its output flags.
 *
 * Python's dicts keep insertion order, so a category's tests are an
 * association list with distinct ids. Scores are `real`; float rounding is
 * not modelled. Reading the files, parsing JSON and formatting the printed
 * text are left out: the manifest arrives as its lines, the report as its
 * suites, and the output as the values that would be printed.
 */
module Grade {
  import opened Base

  // ------------------------------------------------------- the assignments

  /** A category: its key in the manifest, its display name and its weight. */
  datatype Category = Category(cid: string, name: string, points: int)

  datatype Assignment = Assignment(name: string, points: int, categories: seq<Category>)

  /** ASSIGNMENTS, with each assignment's categories in the order they were added. */
  const ASSIGNMENTS: seq<Assignment> := [
    Assignment("Assignment 1", 50, [
      Category("conn_init", "3-way handshake", 20),
      Category("conn_term", "Connection tear-down", 10),
      Category("data_transfer", "Data transfer", 20)]),
    Assignment("Assignment 2", 50, [
      Category("multitimer", "Timer API", 10),
      Category("unreliable_conn_init", "Retransmissions - 3-way handshake", 5),
      Category("unreliable_conn_term", "Retransmissions - Connection tear-down", 5),
      Category("unreliable_data_transfer", "Retransmissions - Data transfer", 15),
      Category("persist", "Persist timer", 5),
      Category("unreliable_out_of_order", "Out-of-order delivery", 10)])]

  /** The sum of the weights of some categories. */
  function Weights(cs: seq<Category>): int {
    if |cs| == 0 then 0 else cs[0].points + Weights(cs[1..])
  }

  /** Every weight is non-negative and each assignment's weights add up to its points. */
  predicate WeightsAddUp(a: Assignment) {
    && Weights(a.categories) == a.points
    && forall k :: 0 <= k < |a.categories| ==> a.categories[k].points >= 0
  }

  /** The weights of assignment 1's categories add up to its 50 points. */
  lemma Assignment1Weights()
    ensures WeightsAddUp(ASSIGNMENTS[0])
  {
    var a := ASSIGNMENTS[0].categories;
    assert Weights(a[2..]) == 20;
    assert Weights(a[1..]) == 30;
  }

  /** The weights of assignment 2's categories add up to its 50 points. */
  lemma Assignment2Weights()
    ensures WeightsAddUp(ASSIGNMENTS[1])
  {
    var b := ASSIGNMENTS[1].categories;
    assert Weights(b[5..]) == 10;
    assert Weights(b[4..]) == 15;
    assert Weights(b[3..]) == 30;
    assert Weights(b[2..]) == 35;
    assert Weights(b[1..]) == 40;
  }

  /** Both assignments' weights add up to their points. */
  lemma AssignmentTable()
    ensures forall i :: 0 <= i < |ASSIGNMENTS| ==> WeightsAddUp(ASSIGNMENTS[i])
  {
    Assignment1Weights();
    Assignment2Weights();
  }

  /** No category key is used twice, so every category has its own entry in the tests dict. */
  lemma CategoryKeysDistinct()
    ensures var cs := ASSIGNMENTS[0].categories + ASSIGNMENTS[1].categories;
      forall j, k :: 0 <= j < k < |cs| ==> cs[j].cid != cs[k].cid
  {
  }

  // ------------------------------------------------------ manifest lines

  datatype GradeError =
    | /** A manifest line that does not split into exactly two parts. */
      ValueError(line: string)
    | /** A dictionary lookup of a missing category. */
      KeyError(key: string)

  datatype Result<T> = Ok(value: T) | Err(error: GradeError)

  /**
   * The characters str.isspace() accepts, which are the ones str.strip()
   * removes: the ASCII controls 9-13 and 28-31, the space, and the Unicode
   * separators.
   */
  predicate IsSpace(c: char) {
    var k := c as int;
    || 9 <= k <= 13 || 28 <= k <= 32 || k == 0x85 || k == 0xA0 || k == 0x1680
    || 0x2000 <= k <= 0x200A || k == 0x2028 || k == 0x2029 || k == 0x202F
    || k == 0x205F || k == 0x3000
  }

  predicate AllSpace(s: string) {
    forall k :: 0 <= k < |s| ==> IsSpace(s[k])
  }

  function StripRight(s: string): (r: string)
    ensures |r| <= |s| && r == s[..|r|] && AllSpace(s[|r|..])
    ensures |r| == 0 || !IsSpace(r[|r| - 1])
  {
    if |s| > 0 && IsSpace(s[|s| - 1]) then
      var r := StripRight(s[..|s| - 1]);
      StripRightStep(s, r);
      r
    else s
  }

  /** Stripping all but the last character, when that character is whitespace, strips the whole. */
  lemma StripRightStep(s: string, r: string)
    requires |s| > 0 && IsSpace(s[|s| - 1])
    requires |r| <= |s| - 1 && r == s[..|s| - 1][..|r|] && AllSpace(s[..|s| - 1][|r|..])
    ensures r == s[..|r|] && AllSpace(s[|r|..])
  {
    assert s[|r|..] == s[..|s| - 1][|r|..] + [s[|s| - 1]];
  }

  function StripLeft(s: string): (r: string)
    ensures |r| <= |s| && r == s[|s| - |r|..] && AllSpace(s[..|s| - |r|])
    ensures |r| == 0 || !IsSpace(r[0])
  {
    if |s| > 0 && IsSpace(s[0]) then
      var r := StripLeft(s[1..]);
      StripLeftStep(s, r);
      r
    else
      assert s[..0] == [];
      s
  }

  /** Stripping all but the first character, when that character is whitespace, strips the whole. */
  lemma StripLeftStep(s: string, r: string)
    requires |s| > 0 && IsSpace(s[0])
    requires var t := s[1..]; |r| <= |t| && r == t[|t| - |r|..] && AllSpace(t[..|t| - |r|])
    ensures r == s[|s| - |r|..] && AllSpace(s[..|s| - |r|])
  {
    var t := s[1..];
    var n := |t| - |r|;
    assert s[|s| - |r|..] == t[n..];
    assert s[..|s| - |r|] == [s[0]] + t[..n];
  }

  /** str.strip(): leading and trailing whitespace removed. */
  function Strip(s: string): (r: string) {
    StripLeft(StripRight(s))
  }

  /** A string without whitespace at either end is its own strip, whatever whitespace follows it. */
  lemma StripPadded(s: string, ws: string)
    requires |s| > 0 && !IsSpace(s[0]) && !IsSpace(s[|s| - 1]) && AllSpace(ws)
    ensures Strip(s + ws) == s
  {
    StripRightPadding(s, ws);
  }

  /** Trailing whitespace makes no difference to StripRight. */
  lemma {:induction false} StripRightPadding(s: string, ws: string)
    requires AllSpace(ws)
    ensures StripRight(s + ws) == StripRight(s)
    decreases |ws|
  {
    if |ws| > 0 {
      assert (s + ws)[..|s + ws| - 1] == s + ws[..|ws| - 1];
      StripRightPadding(s, ws[..|ws| - 1]);
    } else {
      assert s + ws == s;
    }
  }

  /** The separator "::" starts at index i. */
  predicate SepAt(s: string, i: int) {
    0 <= i && i + 1 < |s| && s[i] == ':' && s[i + 1] == ':'
  }

  predicate NoSep(s: string) {
    forall i :: 0 <= i < |s| ==> !SepAt(s, i)
  }

  /** The first separator at or after from, scanning left to right. */
  function FirstSep(s: string, from: nat): (r: Option<nat>)
    requires from <= |s|
    ensures r.Some? ==> from <= r.value && SepAt(s, r.value)
    ensures r.Some? ==> forall j :: from <= j < r.value ==> !SepAt(s, j)
    ensures r.None? ==> forall j :: from <= j < |s| ==> !SepAt(s, j)
    decreases |s| - from
  {
    if from + 1 >= |s| then None
    else if SepAt(s, from) then Some(from)
    else FirstSep(s, from + 1)
  }

  /** The parts joined back with "::" between them. */
  function Join(parts: seq<string>): string
    requires |parts| >= 1
  {
    if |parts| == 1 then parts[0] else parts[0] + "::" + Join(parts[1..])
  }

  /**
   * str.split("::"). The parts join back to the string, none holds a
   * separator, and no part before the last ends in ':' (the scan takes the
   * leftmost separator); these three facts fix the parts uniquely.
   */
  function Split(s: string): (r: seq<string>)
    ensures |r| >= 1 && Join(r) == s
    ensures forall k :: 0 <= k < |r| ==> NoSep(r[k])
    ensures forall k :: 0 <= k < |r| - 1 ==> |r[k]| == 0 || r[k][|r[k]| - 1] != ':'
    decreases |s|
  {
    match FirstSep(s, 0)
    case None => [s]
    case Some(i) =>
      var rest := Split(s[i + 2..]);
      var r := [s[..i]] + rest;
      assert r[1..] == rest;
      assert s == s[..i] + "::" + s[i + 2..];
      assert NoSep(s[..i]) by {
        forall j | 0 <= j < i
          ensures !SepAt(s[..i], j)
        {
          assert !SepAt(s, j);
        }
      }
      assert i > 0 ==> !SepAt(s, i - 1);
      r
  }

  /** One manifest line: stripped, then split into exactly (category, test id). */
  function ParseLine(line: string): (r: Result<(string, string)>)
    ensures r.Err? ==> r.error == ValueError(line)
    ensures r.Ok? ==> Strip(line) == r.value.0 + "::" + r.value.1
    ensures r.Ok? ==> NoSep(r.value.0) && NoSep(r.value.1)
  {
    var parts := Split(Strip(line));
    if |parts| == 2 then
      assert parts[1..] == [parts[1]];
      Ok((parts[0], parts[1]))
    else Err(ValueError(line))
  }

  /**
   * A line written as category, "::", test id and any trailing whitespace
   * (the newline) parses back to that category and test id, provided
   * neither holds "::", the category does not end in ':', and there is no
   * whitespace at the outer ends.
   */
  lemma ParseFormatted(c: string, t: string, ws: string)
    requires NoSep(c) && NoSep(t) && AllSpace(ws)
    requires |c| == 0 || (c[|c| - 1] != ':' && !IsSpace(c[0]))
    requires |t| == 0 || !IsSpace(t[|t| - 1])
    ensures ParseLine(c + "::" + t + ws) == Ok((c, t))
  {
    var s := c + "::" + t;
    assert s[0] == (if |c| == 0 then ':' else c[0]);
    assert s[|s| - 1] == (if |t| == 0 then ':' else t[|t| - 1]);
    StripPadded(s, ws);
    assert s + ws == c + "::" + t + ws;
    SplitAtSep(c, t);
  }

  /** Two separator-free parts joined with "::" split back into those parts when the first does not end in ':'. */
  lemma SplitAtSep(c: string, t: string)
    requires NoSep(c) && NoSep(t)
    requires |c| == 0 || c[|c| - 1] != ':'
    ensures Split(c + "::" + t) == [c, t]
  {
    var s := c + "::" + t;
    assert SepAt(s, |c|);
    forall j | 0 <= j < |c|
      ensures !SepAt(s, j)
    {
      assert j + 1 < |c| ==> !SepAt(c, j);
    }
    FirstSepIs(s, 0, |c|);
    assert s[|c| + 2..] == t;
    assert s[..|c|] == c;
    SplitWhole(t);
  }

  /** A string without a separator splits into itself alone. */
  lemma SplitWhole(t: string)
    requires NoSep(t)
    ensures Split(t) == [t]
  {
    var r := FirstSep(t, 0);
    assert r.Some? ==> SepAt(t, r.value);
  }

  /** The scan stops at the first separator. */
  lemma {:induction false} FirstSepIs(s: string, from: nat, i: nat)
    requires from <= i && SepAt(s, i)
    requires forall j :: from <= j < i ==> !SepAt(s, j)
    ensures FirstSep(s, from) == Some(i)
    decreases i - from
  {
    if from < i {
      FirstSepIs(s, from + 1, i);
    }
  }

  // ------------------------------------------------ tests and their outcomes

  /** One test of a category and its outcome, 0 or 1. */
  datatype Entry = Entry(id: string, value: int)

  predicate UniqueIds(es: seq<Entry>) {
    forall i, j :: 0 <= i < j < |es| ==> es[i].id != es[j].id
  }

  predicate Has(es: seq<Entry>, id: string) {
    exists k :: 0 <= k < |es| && es[k].id == id
  }

  /** The position of id at or after from, or -1: the dict's key lookup. */
  function FindId(es: seq<Entry>, id: string, from: nat): (r: int)
    requires from <= |es|
    ensures r == -1 || from <= r < |es|
    ensures r >= 0 ==> es[r].id == id
    ensures r == -1 ==> forall j :: from <= j < |es| ==> es[j].id != id
    decreases |es| - from
  {
    if from == |es| then -1
    else if es[from].id == id then from
    else FindId(es, id, from + 1)
  }

  /** `d[id] = v` on a dict: an existing entry keeps its place and takes the value, a new one goes last. */
  function SetEntry(es: seq<Entry>, id: string, v: int): (r: seq<Entry>)
    requires UniqueIds(es)
    ensures UniqueIds(r) && Has(r, id)
    ensures Has(es, id) ==> |r| == |es| && forall k :: 0 <= k < |es| ==> r[k] == (if es[k].id == id then Entry(id, v) else es[k])
    ensures !Has(es, id) ==> r == es + [Entry(id, v)]
  {
    var k := FindId(es, id, 0);
    if k >= 0 then
      var r := es[k := Entry(id, v)];
      assert r[k].id == id;
      r
    else
      var r := es + [Entry(id, v)];
      assert r[|es|].id == id;
      r
  }

  /** The entries hold id with outcome 1. */
  predicate PassedEntry(es: seq<Entry>, id: string) {
    exists k :: 0 <= k < |es| && es[k] == Entry(id, 1)
  }

  /** Setting id adds exactly id to the ids held; setting it to 1 adds exactly id to the ids passed. */
  lemma SetEntryIds(es: seq<Entry>, id: string, v: int)
    requires UniqueIds(es)
    ensures forall x :: Has(SetEntry(es, id, v), x) <==> Has(es, x) || x == id
    ensures v == 1 ==> forall x :: PassedEntry(SetEntry(es, id, v), x) <==> PassedEntry(es, x) || x == id
  {
    var r := SetEntry(es, id, v);
    if Has(es, id) {
      forall x
        ensures Has(r, x) <==> Has(es, x) || x == id
      {
        if Has(r, x) {
          var k :| 0 <= k < |r| && r[k].id == x;
          assert es[k].id == x;
        }
        if Has(es, x) {
          var k :| 0 <= k < |es| && es[k].id == x;
          assert r[k].id == x;
        }
      }
      if v == 1 {
        forall x
          ensures PassedEntry(r, x) <==> PassedEntry(es, x) || x == id
        {
          if PassedEntry(es, x) {
            var k :| 0 <= k < |es| && es[k] == Entry(x, 1);
            assert r[k] == Entry(x, 1);
          }
          if x == id {
            var k :| 0 <= k < |es| && es[k].id == id;
            assert r[k] == Entry(id, 1);
          }
        }
      }
    } else {
      forall x
        ensures Has(r, x) <==> Has(es, x) || x == id
      {
        if Has(r, x) {
          var k :| 0 <= k < |r| && r[k].id == x;
          if k < |es| {
            assert es[k].id == x;
          }
        }
        if Has(es, x) {
          var k :| 0 <= k < |es| && es[k].id == x;
          assert r[k].id == x;
        }
        if x == id {
          assert r[|es|].id == x;
        }
      }
      if v == 1 {
        forall x
          ensures PassedEntry(r, x) <==> PassedEntry(es, x) || x == id
        {
          if PassedEntry(r, x) {
            var k :| 0 <= k < |r| && r[k] == Entry(x, 1);
            if k < |es| {
              assert es[k] == Entry(x, 1);
            }
          }
          if PassedEntry(es, x) {
            var k :| 0 <= k < |es| && es[k] == Entry(x, 1);
            assert r[k] == Entry(x, 1);
          }
          if x == id {
            assert r[|es|] == Entry(id, 1);
          }
        }
      }
    }
  }

  /** The tests dict: category to its tests in insertion order. */
  type Tests = map<string, seq<Entry>>

  predicate WellFormed(tests: Tests) {
    forall c :: c in tests ==> UniqueIds(tests[c])
  }

  /** Every outcome is 0 or 1. */
  predicate Binary(tests: Tests) {
    forall c, k :: c in tests && 0 <= k < |tests[c]| ==> tests[c][k].value in {0, 1}
  }

  /** What reading the manifest gives: the tests dict and all_test_ids. */
  datatype Manifest = Manifest(tests: Tests, allIds: set<string>)

  /** Every outcome is 0. */
  predicate AllZero(tests: Tests) {
    forall c, k :: c in tests && 0 <= k < |tests[c]| ==> tests[c][k].value == 0
  }

  /** Every parsed line's test is present in its category. */
  predicate Declares(tests: Tests, pairs: seq<(string, string)>) {
    forall i :: 0 <= i < |pairs| ==> pairs[i].0 in tests && Has(tests[pairs[i].0], pairs[i].1)
  }

  /** Category c declares test x. */
  predicate Declared(tests: Tests, c: string, x: string) {
    c in tests && Has(tests[c], x)
  }

  /** Category c holds test x with outcome 1. */
  predicate Passed(tests: Tests, c: string, x: string) {
    c in tests && PassedEntry(tests[c], x)
  }

  /** Some manifest line names test x in category c. */
  predicate OnLine(pairs: seq<(string, string)>, c: string, x: string) {
    exists i :: 0 <= i < |pairs| && pairs[i] == (c, x)
  }

  /** Setting an entry keeps every id that was there. */
  lemma SetEntryKeeps(es: seq<Entry>, id: string, v: int)
    requires UniqueIds(es)
    ensures forall x :: Has(es, x) ==> Has(SetEntry(es, id, v), x)
  {
    var r := SetEntry(es, id, v);
    forall x | Has(es, x)
      ensures Has(r, x)
    {
      var k :| 0 <= k < |es| && es[k].id == x;
      if Has(es, id) {
        assert r[k].id == x;
      } else {
        assert r[k] == es[k];
      }
    }
  }

  /** Every outcome in a category is 0. */
  predicate ZeroEntries(es: seq<Entry>) {
    forall k :: 0 <= k < |es| ==> es[k].value == 0
  }

  /**
   * One parsed manifest line: the test is declared in its category with
   * outcome 0, replacing an earlier outcome for the same id, and its id is
   * recorded.
   */
  function AddTest(m: Manifest, c: string, t: string): (r: Manifest)
    requires WellFormed(m.tests)
    ensures WellFormed(r.tests) && c in r.tests && Has(r.tests[c], t)
    ensures r.tests.Keys == m.tests.Keys + {c} && r.allIds == m.allIds + {t}
    ensures forall c', id :: c' in m.tests && Has(m.tests[c'], id) ==> Has(r.tests[c'], id)
    ensures AllZero(m.tests) ==> AllZero(r.tests)
    ensures forall c', x :: Declared(r.tests, c', x) <==> Declared(m.tests, c', x) || (c' == c && x == t)
  {
    var es := if c in m.tests then m.tests[c] else [];
    var es' := SetEntry(es, t, 0);
    SetEntryKeeps(es, t, 0);
    SetEntryIds(es, t, 0);
    assert !Has([], t);
    assert AllZero(m.tests) ==> ZeroEntries(es');
    Manifest(m.tests[c := es'], m.allIds + {t})
  }

  /** Every manifest line, stripped and split. */
  function ParseLines(lines: seq<string>): (r: seq<Result<(string, string)>>)
    ensures |r| == |lines| && forall i :: 0 <= i < |lines| ==> r[i] == ParseLine(lines[i])
    ensures forall i :: 0 <= i < |lines| && r[i].Err? ==> r[i].error == ValueError(lines[i])
  {
    seq(|lines|, i requires 0 <= i < |lines| => ParseLine(lines[i]))
  }

  /**
   * The parsing half of the manifest loop, over the parsed lines: all the
   * (category, test id) pairs in order, or the error of the first line
   * that does not split into two.
   */
  function Collect(rs: seq<Result<(string, string)>>): (r: Result<seq<(string, string)>>)
    ensures r.Ok? <==> forall i :: 0 <= i < |rs| ==> rs[i].Ok?
    ensures r.Ok? ==> |r.value| == |rs| && forall i :: 0 <= i < |rs| ==> rs[i] == Ok(r.value[i])
    ensures r.Err? ==> exists i :: (0 <= i < |rs| && rs[i] == Err(r.error)
      && forall j :: 0 <= j < i ==> rs[j].Ok?)
    decreases |rs|
  {
    if |rs| == 0 then Ok([])
    else
      var init := rs[..|rs| - 1];
      assert forall i :: 0 <= i < |init| ==> init[i] == rs[i];
      match Collect(init)
      case Err(e) => Err(e)
      case Ok(ps) =>
        match rs[|rs| - 1]
        case Err(e) => Err(e)
        case Ok(p) => Ok(ps + [p])
  }

  /**
   * The declaring half of the manifest loop, in line order: every line's
   * test is in its category with outcome 0, the categories are those the
   * lines name, and all_test_ids is the set of ids the lines name.
   */
  function DeclareAll(pairs: seq<(string, string)>): (r: Manifest)
    ensures WellFormed(r.tests) && AllZero(r.tests) && Declares(r.tests, pairs)
    ensures forall c, x :: Declared(r.tests, c, x) <==> OnLine(pairs, c, x)
    ensures r.tests.Keys == set i | 0 <= i < |pairs| :: pairs[i].0
    ensures r.allIds == set i | 0 <= i < |pairs| :: pairs[i].1
    decreases |pairs|
  {
    if |pairs| == 0 then Manifest(map[], {})
    else
      var init := pairs[..|pairs| - 1];
      var m := DeclareAll(init);
      var last := pairs[|pairs| - 1];
      DeclareStep(pairs, m);
      AddTest(m, last.0, last.1)
  }

  /** The facts DeclareAll states carry over from all lines but the last to all lines. */
  lemma DeclareStep(pairs: seq<(string, string)>, m: Manifest)
    requires |pairs| > 0 && WellFormed(m.tests)
    requires var init := pairs[..|pairs| - 1];
      && Declares(m.tests, init)
      && (forall c, x :: Declared(m.tests, c, x) <==> OnLine(init, c, x))
      && m.tests.Keys == (set i | 0 <= i < |init| :: init[i].0)
      && m.allIds == (set i | 0 <= i < |init| :: init[i].1)
    ensures var last := pairs[|pairs| - 1];
      var r := AddTest(m, last.0, last.1);
      && Declares(r.tests, pairs)
      && (forall c, x :: Declared(r.tests, c, x) <==> OnLine(pairs, c, x))
      && r.tests.Keys == (set i | 0 <= i < |pairs| :: pairs[i].0)
      && r.allIds == (set i | 0 <= i < |pairs| :: pairs[i].1)
  {
    var init := pairs[..|pairs| - 1];
    var last := pairs[|pairs| - 1];
    assert forall i :: 0 <= i < |init| ==> init[i] == pairs[i];
    var r := AddTest(m, last.0, last.1);
    assert (set i | 0 <= i < |pairs| :: pairs[i].0) == (set i | 0 <= i < |init| :: init[i].0) + {last.0};
    assert (set i | 0 <= i < |pairs| :: pairs[i].1) == (set i | 0 <= i < |init| :: init[i].1) + {last.1};
    forall i | 0 <= i < |pairs|
      ensures pairs[i].0 in r.tests && Has(r.tests[pairs[i].0], pairs[i].1)
    {
      if i < |init| {
        assert Has(m.tests[init[i].0], init[i].1);
      }
    }
    OnLineSnoc(pairs);
  }

  /** A line names (c, x) exactly when an earlier line does or the last one does. */
  lemma OnLineSnoc(pairs: seq<(string, string)>)
    requires |pairs| > 0
    ensures forall c, x :: OnLine(pairs, c, x) <==> OnLine(pairs[..|pairs| - 1], c, x) || (c, x) == pairs[|pairs| - 1]
  {
    var init := pairs[..|pairs| - 1];
    forall c, x
      ensures OnLine(pairs, c, x) <==> OnLine(init, c, x) || (c, x) == pairs[|pairs| - 1]
    {
      if OnLine(pairs, c, x) {
        var i :| 0 <= i < |pairs| && pairs[i] == (c, x);
        if i < |init| {
          assert init[i] == (c, x);
        }
      }
      if OnLine(init, c, x) {
        var i :| 0 <= i < |init| && init[i] == (c, x);
        assert pairs[i] == (c, x);
      }
    }
  }

  /** The error the parsing half reports is the ValueError of the first line that does not split into two. */
  lemma FirstBadLine(lines: seq<string>, e: GradeError)
    requires Collect(ParseLines(lines)) == Err(e)
    ensures exists i :: (0 <= i < |lines| && e.ValueError? && e.line == lines[i]
      && forall j :: 0 <= j < i ==> ParseLines(lines)[j].Ok?)
  {
    var rs := ParseLines(lines);
    var i :| 0 <= i < |rs| && rs[i] == Err(e) && forall j :: 0 <= j < i ==> rs[j].Ok?;
    assert rs[i].Err? && rs[i].error == ValueError(lines[i]);
    assert e.ValueError? && e.line == lines[i];
  }

  /** The manifest loop: parse every line, then declare every test. */
  function LoadManifest(lines: seq<string>): (r: Result<Manifest>)
    ensures r.Ok? <==> forall i :: 0 <= i < |lines| ==> ParseLines(lines)[i].Ok?
    ensures r.Err? ==> exists i :: (0 <= i < |lines| && r.error.ValueError? && r.error.line == lines[i]
      && forall j :: 0 <= j < i ==> ParseLines(lines)[j].Ok?)
    ensures r.Ok? ==> r.value == DeclareAll(Collect(ParseLines(lines)).value)
  {
    match Collect(ParseLines(lines))
    case Err(e) =>
      FirstBadLine(lines, e);
      Err(e)
    case Ok(pairs) => Ok(DeclareAll(pairs))
  }

  // ----------------------------------------------------------- the report

  /** One test of the report: its name and status string. */
  datatype TestResult = TestResult(name: string, status: string)

  /** One test suite of the report; its name is the category. */
  datatype Suite = Suite(name: string, tests: seq<TestResult>)

  /** The tests dict and run_test_ids as the report loop updates them. */
  datatype Tally = Tally(tests: Tests, runIds: set<string>)

  predicate HasPassed(ts: seq<TestResult>) {
    exists k :: 0 <= k < |ts| && ts[k].status == "PASSED"
  }

  /** The suite reports test x as PASSED. */
  predicate ReportsPass(ts: seq<TestResult>, x: string) {
    exists k :: 0 <= k < |ts| && ts[k] == TestResult(x, "PASSED")
  }

  function Names(ts: seq<TestResult>): set<string> {
    set k | 0 <= k < |ts| :: ts[k].name
  }

  /**
   * One reported test: its name joins run_test_ids whatever its status;
   * only "PASSED" sets its outcome to 1, inserting it if the manifest did
   * not declare it, and fails with KeyError when the category is unknown.
   */
  function ApplyTest(t: Tally, category: string, test: TestResult): (r: Result<Tally>)
    requires WellFormed(t.tests)
    ensures r.Err? <==> test.status == "PASSED" && category !in t.tests
    ensures r.Err? ==> r.error == KeyError(category)
    ensures r.Ok? ==> r.value.runIds == t.runIds + {test.name} && r.value.tests.Keys == t.tests.Keys
    ensures r.Ok? ==> WellFormed(r.value.tests) && (Binary(t.tests) ==> Binary(r.value.tests))
    ensures r.Ok? && test.status != "PASSED" ==> r.value.tests == t.tests
    ensures r.Ok? && test.status == "PASSED" ==>
      && r.value.tests[category] == SetEntry(t.tests[category], test.name, 1)
      && (forall c :: c in t.tests && c != category ==> r.value.tests[c] == t.tests[c])
    ensures r.Ok? ==> forall c, x ::
      Declared(r.value.tests, c, x) <==> Declared(t.tests, c, x) || (c == category && test == TestResult(x, "PASSED"))
    ensures r.Ok? ==> forall c, x ::
      Passed(r.value.tests, c, x) <==> Passed(t.tests, c, x) || (c == category && test == TestResult(x, "PASSED"))
  {
    var runIds := t.runIds + {test.name};
    if test.status == "PASSED" then
      if category !in t.tests then Err(KeyError(category))
      else
        SetEntryIds(t.tests[category], test.name, 1);
        var es := SetEntry(t.tests[category], test.name, 1);
        Ok(Tally(t.tests[category := es], runIds))
    else Ok(Tally(t.tests, runIds))
  }

  /** The tests of one suite, in order. */
  function ApplyTests(t: Tally, category: string, ts: seq<TestResult>): (r: Result<Tally>)
    requires WellFormed(t.tests)
    ensures r.Err? <==> category !in t.tests && HasPassed(ts)
    ensures r.Err? ==> r.error == KeyError(category)
    ensures r.Ok? ==> r.value.runIds == t.runIds + Names(ts) && r.value.tests.Keys == t.tests.Keys
    ensures r.Ok? ==> WellFormed(r.value.tests) && (Binary(t.tests) ==> Binary(r.value.tests))
    ensures r.Ok? ==> forall c, x ::
      Declared(r.value.tests, c, x) <==> Declared(t.tests, c, x) || (c == category && ReportsPass(ts, x))
    ensures r.Ok? ==> forall c, x ::
      Passed(r.value.tests, c, x) <==> Passed(t.tests, c, x) || (c == category && ReportsPass(ts, x))
    decreases |ts|
  {
    if |ts| == 0 then Ok(t)
    else
      ReportsPassCons(ts);
      assert Names(ts) == {ts[0].name} + Names(ts[1..]) by {
        forall k | 0 <= k < |ts[1..]|
          ensures ts[1..][k].name in Names(ts)
        {
          assert ts[1..][k] == ts[k + 1];
        }
        forall x | x in Names(ts)
          ensures x == ts[0].name || x in Names(ts[1..])
        {
          var k :| 0 <= k < |ts| && ts[k].name == x;
          if k > 0 {
            assert ts[1..][k - 1].name == x;
          }
        }
      }
      assert HasPassed(ts) <==> ts[0].status == "PASSED" || HasPassed(ts[1..]) by {
        if HasPassed(ts) {
          var k :| 0 <= k < |ts| && ts[k].status == "PASSED";
          if k > 0 {
            assert ts[1..][k - 1].status == "PASSED";
          }
        }
        if HasPassed(ts[1..]) {
          var k :| 0 <= k < |ts| - 1 && ts[1..][k].status == "PASSED";
          assert ts[k + 1].status == "PASSED";
        }
      }
      match ApplyTest(t, category, ts[0])
      case Err(e) => Err(e)
      case Ok(t1) => ApplyTests(t1, category, ts[1..])
  }

  /** A suite reports x as PASSED exactly when its first test does or the rest of it does. */
  lemma ReportsPassCons(ts: seq<TestResult>)
    requires |ts| > 0
    ensures forall x :: ReportsPass(ts, x) <==> ts[0] == TestResult(x, "PASSED") || ReportsPass(ts[1..], x)
  {
    forall x
      ensures ReportsPass(ts, x) <==> ts[0] == TestResult(x, "PASSED") || ReportsPass(ts[1..], x)
    {
      if ReportsPass(ts, x) {
        var k :| 0 <= k < |ts| && ts[k] == TestResult(x, "PASSED");
        if k > 0 {
          assert ts[1..][k - 1] == ts[k];
        }
      }
      if ReportsPass(ts[1..], x) {
        var k :| 0 <= k < |ts[1..]| && ts[1..][k] == TestResult(x, "PASSED");
        assert ts[k + 1] == ts[1..][k];
      }
    }
  }

  /** Some suite named c reports x as PASSED. */
  predicate SuitesPass(suites: seq<Suite>, c: string, x: string) {
    exists s :: 0 <= s < |suites| && suites[s].name == c && ReportsPass(suites[s].tests, x)
  }

  /** A suite list reports x under c exactly when its first suite does or the rest do. */
  lemma SuitesPassCons(suites: seq<Suite>)
    requires |suites| > 0
    ensures forall c, x :: SuitesPass(suites, c, x) <==>
      (c == suites[0].name && ReportsPass(suites[0].tests, x)) || SuitesPass(suites[1..], c, x)
  {
    forall c, x
      ensures SuitesPass(suites, c, x) <==>
        (c == suites[0].name && ReportsPass(suites[0].tests, x)) || SuitesPass(suites[1..], c, x)
    {
      if SuitesPass(suites, c, x) {
        var s :| 0 <= s < |suites| && suites[s].name == c && ReportsPass(suites[s].tests, x);
        if s > 0 {
          assert suites[1..][s - 1] == suites[s];
        }
      }
      if SuitesPass(suites[1..], c, x) {
        var s :| 0 <= s < |suites[1..]| && suites[1..][s].name == c && ReportsPass(suites[1..][s].tests, x);
        assert suites[s + 1] == suites[1..][s];
      }
    }
  }

  /** A suite holds a PASSED test for a category the tests dict does not know. */
  predicate UnknownPassed(tests: Tests, s: Suite) {
    s.name !in tests && HasPassed(s.tests)
  }

  function SuiteNames(suites: seq<Suite>): set<string>
    decreases |suites|
  {
    if |suites| == 0 then {} else Names(suites[0].tests) + SuiteNames(suites[1..])
  }

  /**
   * The report loop, suite by suite. It fails with KeyError exactly when
   * some suite holds a PASSED test under a category the manifest did not
   * declare; otherwise every reported test id is in run_test_ids, the
   * categories stay as they were, and outcomes stay 0 or 1.
   */
  function ApplyReport(t: Tally, suites: seq<Suite>): (r: Result<Tally>)
    requires WellFormed(t.tests)
    ensures r.Err? <==> exists s :: 0 <= s < |suites| && UnknownPassed(t.tests, suites[s])
    ensures r.Err? ==> r.error.KeyError?
    ensures r.Ok? ==> r.value.runIds == t.runIds + SuiteNames(suites) && r.value.tests.Keys == t.tests.Keys
    ensures r.Ok? ==> WellFormed(r.value.tests) && (Binary(t.tests) ==> Binary(r.value.tests))
    ensures r.Ok? ==> forall c, x ::
      Declared(r.value.tests, c, x) <==> Declared(t.tests, c, x) || SuitesPass(suites, c, x)
    ensures r.Ok? ==> forall c, x ::
      Passed(r.value.tests, c, x) <==> Passed(t.tests, c, x) || SuitesPass(suites, c, x)
    decreases |suites|
  {
    if |suites| == 0 then Ok(t)
    else
      SuitesPassCons(suites);
      match ApplyTests(t, suites[0].name, suites[0].tests)
      case Err(e) => Err(e)
      case Ok(t1) =>
        var r := ApplyReport(t1, suites[1..]);
        assert (exists s :: 0 <= s < |suites| && UnknownPassed(t.tests, suites[s]))
               <==> (exists s :: 0 <= s < |suites| - 1 && UnknownPassed(t1.tests, suites[1..][s])) by {
          if exists s :: 0 <= s < |suites| && UnknownPassed(t.tests, suites[s]) {
            var s :| 0 <= s < |suites| && UnknownPassed(t.tests, suites[s]);
            assert s > 0;
            assert UnknownPassed(t1.tests, suites[1..][s - 1]);
          }
          if exists s :: 0 <= s < |suites| - 1 && UnknownPassed(t1.tests, suites[1..][s]) {
            var s :| 0 <= s < |suites| - 1 && UnknownPassed(t1.tests, suites[1..][s]);
            assert UnknownPassed(t.tests, suites[s + 1]);
          }
        }
        r
  }

  /** Tests that did not pass only join run_test_ids: the outcomes are untouched. */
  lemma {:induction false} FailuresOnlyMarkRun(t: Tally, category: string, ts: seq<TestResult>)
    requires WellFormed(t.tests)
    requires forall k :: 0 <= k < |ts| ==> ts[k].status != "PASSED"
    ensures ApplyTests(t, category, ts) == Ok(Tally(t.tests, t.runIds + Names(ts)))
    decreases |ts|
  {
    if |ts| > 0 {
      var t1 := Tally(t.tests, t.runIds + {ts[0].name});
      assert ApplyTest(t, category, ts[0]) == Ok(t1);
      FailuresOnlyMarkRun(t1, category, ts[1..]);
    }
  }

  // ------------------------------------------------------- counts and scores

  /** sum(tests[category].values()). */
  function Successes(es: seq<Entry>): (r: int)
    ensures (forall k :: 0 <= k < |es| ==> es[k].value in {0, 1}) ==>
      && 0 <= r <= |es|
      && (r == |es| <==> forall k :: 0 <= k < |es| ==> es[k].value == 1)
      && (r == 0 <==> forall k :: 0 <= k < |es| ==> es[k].value == 0)
    decreases |es|
  {
    if |es| == 0 then 0
    else
      var rest := Successes(es[1..]);
      assert forall k :: 0 < k < |es| ==> es[k] == es[1..][k - 1];
      es[0].value + rest
  }

  /** A test added at the end adds its outcome to the successes. */
  lemma {:induction false} SuccessesAppend(es: seq<Entry>, e: Entry)
    ensures Successes(es + [e]) == Successes(es) + e.value
    decreases |es|
  {
    if |es| > 0 {
      assert (es + [e])[1..] == es[1..] + [e];
      SuccessesAppend(es[1..], e);
    }
  }

  /** Replacing one test's outcome changes the successes by the difference. */
  lemma {:induction false} SuccessesUpdate(es: seq<Entry>, k: nat, e: Entry)
    requires k < |es|
    ensures Successes(es[k := e]) == Successes(es) - es[k].value + e.value
    decreases |es|
  {
    if k == 0 {
      assert es[k := e][1..] == es[1..];
    } else {
      assert es[k := e][1..] == es[1..][k - 1 := e];
      SuccessesUpdate(es[1..], k - 1, e);
    }
  }

  /**
   * A PASSED test sets its outcome to 1: an undeclared test is inserted,
   * which raises both the total and the successes by one, and a declared
   * test with outcome 0 raises the successes by one.
   */
  lemma PassRaisesSuccesses(es: seq<Entry>, id: string)
    requires UniqueIds(es)
    ensures !Has(es, id) ==>
      |SetEntry(es, id, 1)| == |es| + 1 && Successes(SetEntry(es, id, 1)) == Successes(es) + 1
    ensures forall k :: 0 <= k < |es| && es[k].id == id ==>
      |SetEntry(es, id, 1)| == |es| && Successes(SetEntry(es, id, 1)) == Successes(es) + 1 - es[k].value
  {
    if !Has(es, id) {
      SuccessesAppend(es, Entry(id, 1));
    }
    forall k | 0 <= k < |es| && es[k].id == id
      ensures Successes(SetEntry(es, id, 1)) == Successes(es) + 1 - es[k].value
    {
      assert SetEntry(es, id, 1) == es[k := Entry(id, 1)];
      SuccessesUpdate(es, k, Entry(id, 1));
    }
  }

  /** (num_success, num_failed, num_total) of one category. */
  datatype Counts = Counts(success: int, failed: int, total: int)

  function CategoryCounts(es: seq<Entry>): (r: Counts)
    ensures r.total == |es| && r.success + r.failed == r.total
    ensures (forall k :: 0 <= k < |es| ==> es[k].value in {0, 1}) ==> 0 <= r.success <= r.total
  {
    var s := Successes(es);
    Counts(s, |es| - s, |es|)
  }

  /**
   * A category's score: 0 for a category without tests, otherwise the
   * passed fraction of its weight; it lies between 0 and the weight, and
   * equals the weight exactly when every test passed.
   */
  function CategoryScore(c: Counts, points: int): (r: real)
    ensures c.total == 0 ==> r == 0.0
    ensures 0 <= c.success <= c.total && 0 <= points ==> 0.0 <= r <= points as real
    ensures 0 < c.total && c.success == c.total ==> r == points as real
    ensures 0 < c.total && c.success == 0 ==> r == 0.0
  {
    if c.total == 0 then 0.0
    else
      FractionOfWeight(c.success, c.total, points);
      (c.success as real / c.total as real) * points as real
  }

  /** A fraction s/t of a weight p, with 0 <= s <= t, lies between 0 and p. */
  lemma FractionOfWeight(s: int, t: int, p: int)
    requires t != 0
    ensures 0 <= s <= t && 0 <= p ==> 0.0 <= (s as real / t as real) * p as real <= p as real
  {
    if 0 <= s <= t && 0 <= p {
      var f := s as real / t as real;
      assert 0.0 <= f <= 1.0;
      assert f * p as real <= 1.0 * p as real;
    }
  }

  /** One line of the table: a category, its counts and its score. */
  datatype Row = Row(category: Category, counts: Counts, score: real)

  /** Some category of the list has no entry in the manifest. */
  predicate Missing(tests: Tests, cs: seq<Category>) {
    exists k :: 0 <= k < |cs| && cs[k].cid !in tests
  }

  /**
   * The scores of one assignment, category by category; a category the
   * manifest never named fails with KeyError, for the first such category.
   */
  function ScoreRows(tests: Tests, cs: seq<Category>): (r: Result<seq<Row>>)
    ensures r.Err? <==> Missing(tests, cs)
    ensures r.Err? ==> exists k :: (0 <= k < |cs| && r.error == KeyError(cs[k].cid) && cs[k].cid !in tests
      && forall j :: 0 <= j < k ==> cs[j].cid in tests)
    ensures r.Ok? ==> |r.value| == |cs| && forall k :: 0 <= k < |cs| ==>
      && r.value[k].category == cs[k]
      && r.value[k].counts == CategoryCounts(tests[cs[k].cid])
      && r.value[k].score == CategoryScore(r.value[k].counts, cs[k].points)
    decreases |cs|
  {
    if |cs| == 0 then Ok([])
    else if cs[0].cid !in tests then Err(KeyError(cs[0].cid))
    else
      var counts := CategoryCounts(tests[cs[0].cid]);
      var row := Row(cs[0], counts, CategoryScore(counts, cs[0].points));
      MissingTail(tests, cs);
      match ScoreRows(tests, cs[1..])
      case Err(e) =>
        FirstMissingShifts(tests, cs, e);
        Err(e)
      case Ok(rows) =>
        assert forall k :: 0 < k < |cs| ==> cs[k] == cs[1..][k - 1];
        Ok([row] + rows)
  }

  /** With the first category present, a category is missing exactly when one of the rest is. */
  lemma MissingTail(tests: Tests, cs: seq<Category>)
    requires |cs| > 0 && cs[0].cid in tests
    ensures Missing(tests, cs) <==> Missing(tests, cs[1..])
  {
    if Missing(tests, cs) {
      var k :| 0 <= k < |cs| && cs[k].cid !in tests;
      assert cs[1..][k - 1] == cs[k];
    }
  }

  /** The first missing category of the rest, with the first category present, is the first missing one of the whole list. */
  lemma FirstMissingShifts(tests: Tests, cs: seq<Category>, e: GradeError)
    requires |cs| > 0 && cs[0].cid in tests
    requires exists k :: (0 <= k < |cs| - 1 && e == KeyError(cs[1..][k].cid) && cs[1..][k].cid !in tests
      && forall j :: 0 <= j < k ==> cs[1..][j].cid in tests)
    ensures exists k :: (0 <= k < |cs| && e == KeyError(cs[k].cid) && cs[k].cid !in tests
      && forall j :: 0 <= j < k ==> cs[j].cid in tests)
  {
    var k :| 0 <= k < |cs| - 1 && e == KeyError(cs[1..][k].cid) && cs[1..][k].cid !in tests
      && forall j :: 0 <= j < k ==> cs[1..][j].cid in tests;
    assert forall j :: 0 < j < k + 1 ==> cs[j] == cs[1..][j - 1];
    assert cs[k + 1] == cs[1..][k];
  }

  /** pscore: the plain sum of the category scores. */
  function Total(rows: seq<Row>): real
    decreases |rows|
  {
    if |rows| == 0 then 0.0 else rows[0].score + Total(rows[1..])
  }

  function RowCategories(rows: seq<Row>): (r: seq<Category>)
    ensures |r| == |rows| && forall k :: 0 <= k < |rows| ==> r[k] == rows[k].category
  {
    seq(|rows|, k requires 0 <= k < |rows| => rows[k].category)
  }

  /** A total lies between 0 and the sum of the weights, and reaches it when every category scores its weight. */
  lemma {:induction false} TotalBounds(rows: seq<Row>)
    requires forall k :: 0 <= k < |rows| ==> 0.0 <= rows[k].score <= rows[k].category.points as real
    ensures 0.0 <= Total(rows) <= Weights(RowCategories(rows)) as real
    ensures (forall k :: 0 <= k < |rows| ==> rows[k].score == rows[k].category.points as real) ==>
      Total(rows) == Weights(RowCategories(rows)) as real
    decreases |rows|
  {
    if |rows| > 0 {
      assert RowCategories(rows)[1..] == RowCategories(rows[1..]);
      assert forall k :: 0 < k < |rows| ==> rows[k] == rows[1..][k - 1];
      TotalBounds(rows[1..]);
    }
  }

  /**
   * With binary outcomes every assignment total lies between 0 and its
   * points, and an assignment whose categories all have tests, all passed,
   * scores exactly its points.
   */
  lemma AssignmentTotal(tests: Tests, a: Assignment)
    requires WeightsAddUp(a) && Binary(tests)
    requires ScoreRows(tests, a.categories).Ok?
    ensures var rows := ScoreRows(tests, a.categories).value;
      0.0 <= Total(rows) <= a.points as real
    ensures var rows := ScoreRows(tests, a.categories).value;
      (forall k :: 0 <= k < |a.categories| ==>
         var es := tests[a.categories[k].cid];
         |es| > 0 && forall j :: 0 <= j < |es| ==> es[j].value == 1)
      ==> Total(rows) == a.points as real
  {
    var rows := ScoreRows(tests, a.categories).value;
    assert RowCategories(rows) == a.categories;
    forall k | 0 <= k < |rows|
      ensures 0.0 <= rows[k].score <= rows[k].category.points as real
    {
      var es := tests[a.categories[k].cid];
      assert forall j :: 0 <= j < |es| ==> es[j].value in {0, 1};
    }
    if forall k :: 0 <= k < |a.categories| ==>
         var es := tests[a.categories[k].cid];
         |es| > 0 && forall j :: 0 <= j < |es| ==> es[j].value == 1
    {
      forall k | 0 <= k < |rows|
        ensures rows[k].score == rows[k].category.points as real
      {
        var es := tests[a.categories[k].cid];
        assert forall j :: 0 <= j < |es| ==> es[j].value in {0, 1};
      }
    }
    TotalBounds(rows);
  }

  /** One assignment with its scored rows. */
  datatype Scored = Scored(assignment: Assignment, rows: seq<Row>)

  /** The scores loop over the assignments; the first missing category fails it. */
  function ScoreAll(tests: Tests, as_: seq<Assignment>): (r: Result<seq<Scored>>)
    ensures r.Err? <==> exists i :: 0 <= i < |as_| && Missing(tests, as_[i].categories)
    ensures r.Err? ==> r.error.KeyError?
    ensures r.Ok? ==> |r.value| == |as_| && forall i :: 0 <= i < |as_| ==>
      r.value[i] == Scored(as_[i], ScoreRows(tests, as_[i].categories).value)
    decreases |as_|
  {
    if |as_| == 0 then Ok([])
    else
      assert forall i :: 0 < i < |as_| ==> as_[i] == as_[1..][i - 1];
      match ScoreRows(tests, as_[0].categories)
      case Err(e) => Err(e)
      case Ok(rows) =>
        match ScoreAll(tests, as_[1..])
        case Err(e) => Err(e)
        case Ok(rest) => Ok([Scored(as_[0], rows)] + rest)
  }

  // ------------------------------------------------------------- the output

  /** The command-line flags that pick the output: --csv, --gradescope and --gradescope-assignment. */
  datatype Flags = Flags(csv: bool, gradescope: bool, selector: Option<int>)

  /** One entry of the gradescope "tests" list. */
  datatype GsTest = GsTest(score: real, maxScore: int, name: string)

  /** One printed gradescope document: its tests, whether it carries the error message, and its score. */
  datatype GsDoc = GsDoc(tests: seq<GsTest>, output: bool, score: real)

  /** What the script emits: the missing-results warning (missing, possible), the text tables, the gradescope documents, the CSV line. */
  datatype GradeOutput = GradeOutput(warning: Option<(nat, nat)>, tables: seq<Scored>, documents: seq<GsDoc>, csv: Option<seq<real>>)

  function GsTestsOf(s: Scored): (r: seq<GsTest>)
    ensures |r| == |s.rows| && forall k :: 0 <= k < |s.rows| ==>
      r[k] == GsTest(s.rows[k].score, s.rows[k].category.points, s.rows[k].category.name)
  {
    seq(|s.rows|, k requires 0 <= k < |s.rows| => GsTest(s.rows[k].score, s.rows[k].category.points, s.rows[k].category.name))
  }

  /** Assignment i's categories join the gradescope tests list. */
  predicate Listed(f: Flags, i: nat) {
    f.gradescope && (f.selector.None? || f.selector == Some(i + 1))
  }

  /**
   * The assignments loop from assignment i on, as it bears on gradescope:
   * the documents printed, then the tests list as it stands at the end.
   */
  function GsLoop(f: Flags, output: bool, scored: seq<Scored>, i: nat, acc: seq<GsTest>): (seq<GsDoc>, seq<GsTest>)
    requires i <= |scored|
    decreases |scored| - i
  {
    if i == |scored| then ([], acc)
    else
      var acc1 := acc + (if Listed(f, i) then GsTestsOf(scored[i]) else []);
      var doc := if f.gradescope && f.selector == Some(i + 1) then [GsDoc(acc1, output, Total(scored[i].rows))] else [];
      var rest := GsLoop(f, output, scored, i + 1, acc1);
      (doc + rest.0, rest.1)
  }

  function Totals(scored: seq<Scored>): (r: seq<real>)
    ensures |r| == |scored| && forall i :: 0 <= i < |scored| ==> r[i] == Total(scored[i].rows)
  {
    seq(|scored|, i requires 0 <= i < |scored| => Total(scored[i].rows))
  }

  function Sum(xs: seq<real>): real
    decreases |xs|
  {
    if |xs| == 0 then 0.0 else xs[0] + Sum(xs[1..])
  }

  /** Everything after the scores: the warning, the tables, the gradescope documents and the CSV line. */
  function Emit(f: Flags, notRun: nat, possible: nat, scored: seq<Scored>): (r: GradeOutput)
    ensures r.warning.Some? <==> notRun > 0 && !f.csv
    ensures r.warning.Some? ==> r.warning.value == (notRun, possible)
    ensures r.tables == (if !f.csv && !f.gradescope then scored else [])
    ensures r.csv == (if f.csv then Some(Totals(scored)) else None)
    ensures !f.gradescope ==> r.documents == []
    ensures forall d :: d in r.documents ==> (d.output <==> notRun > 0 && !f.csv)
  {
    var output := f.gradescope && notRun > 0 && !f.csv;
    var loop := GsLoop(f, output, scored, 0, []);
    GsLoopOutput(f, output, scored, 0, []);
    var docs := loop.0 + (if f.gradescope && f.selector.None? then [GsDoc(loop.1, output, Sum(Totals(scored)))] else []);
    GradeOutput(
      if notRun > 0 && !f.csv then Some((notRun, possible)) else None,
      if !f.csv && !f.gradescope then scored else [],
      docs,
      if f.csv then Some(Totals(scored)) else None)
  }

  /** Every document the loop prints carries the given message flag; without --gradescope it prints none. */
  lemma {:induction false} GsLoopOutput(f: Flags, output: bool, scored: seq<Scored>, i: nat, acc: seq<GsTest>)
    requires i <= |scored|
    ensures forall d :: d in GsLoop(f, output, scored, i, acc).0 ==> d.output == output
    ensures !f.gradescope ==> GsLoop(f, output, scored, i, acc).0 == []
    decreases |scored| - i
  {
    if i < |scored| {
      var acc1 := acc + (if Listed(f, i) then GsTestsOf(scored[i]) else []);
      GsLoopOutput(f, output, scored, i + 1, acc1);
    }
  }

  /**
   * With a selector k, the loop prints one document exactly when k names
   * an assignment, holding only that assignment's categories and total.
   */
  lemma {:induction false} GsLoopSelected(f: Flags, output: bool, scored: seq<Scored>, i: nat, acc: seq<GsTest>, k: int)
    requires i <= |scored| && f.gradescope && f.selector == Some(k)
    ensures GsLoop(f, output, scored, i, acc) ==
      if i < k && k <= |scored| then
        ([GsDoc(acc + GsTestsOf(scored[k - 1]), output, Total(scored[k - 1].rows))], acc + GsTestsOf(scored[k - 1]))
      else ([], acc)
    decreases |scored| - i
  {
    if i < |scored| {
      var acc1 := acc + (if Listed(f, i) then GsTestsOf(scored[i]) else []);
      GsLoopSelected(f, output, scored, i + 1, acc1, k);
      var rest := GsLoop(f, output, scored, i + 1, acc1);
      if i + 1 == k {
        assert Listed(f, i) && acc1 == acc + GsTestsOf(scored[k - 1]);
        assert rest == ([], acc1);
        var doc := [GsDoc(acc1, output, Total(scored[k - 1].rows))];
        assert doc + rest.0 == doc;
        assert GsLoop(f, output, scored, i, acc) == (doc, acc1);
      } else {
        assert acc1 == acc;
        assert [] + rest.0 == rest.0;
        assert GsLoop(f, output, scored, i, acc) == rest;
      }
    }
  }

  function AllTests(scored: seq<Scored>): seq<GsTest>
    decreases |scored|
  {
    if |scored| == 0 then [] else GsTestsOf(scored[0]) + AllTests(scored[1..])
  }

  /** Without a selector the loop prints nothing and collects every category, in order. */
  lemma {:induction false} GsLoopAll(f: Flags, output: bool, scored: seq<Scored>, i: nat, acc: seq<GsTest>)
    requires i <= |scored| && f.gradescope && f.selector.None?
    ensures GsLoop(f, output, scored, i, acc) == ([], acc + AllTests(scored[i..]))
    decreases |scored| - i
  {
    if i < |scored| {
      var acc1 := acc + GsTestsOf(scored[i]);
      GsLoopAll(f, output, scored, i + 1, acc1);
      assert scored[i..][1..] == scored[i + 1..];
      assert AllTests(scored[i..]) == GsTestsOf(scored[i]) + AllTests(scored[i + 1..]);
      assert acc + AllTests(scored[i..]) == acc1 + AllTests(scored[i + 1..]);
      var rest := GsLoop(f, output, scored, i + 1, acc1);
      assert [] + rest.0 == rest.0;
      assert GsLoop(f, output, scored, i, acc) == rest;
    } else {
      assert scored[i..] == [];
      assert acc + AllTests(scored[i..]) == acc;
    }
  }

  /**
   * With a selector naming an assignment, gradescope gets one document
   * with only that assignment's categories and total; with a selector
   * naming none, it gets no document.
   */
  lemma GradescopeSelected(f: Flags, notRun: nat, possible: nat, scored: seq<Scored>)
    requires f.gradescope && f.selector.Some?
    ensures var out := Emit(f, notRun, possible, scored);
      var k := f.selector.value;
      && (1 <= k <= |scored| ==>
            out.documents == [GsDoc(GsTestsOf(scored[k - 1]), notRun > 0 && !f.csv, Total(scored[k - 1].rows))])
      && (!(1 <= k <= |scored|) ==> out.documents == [])
  {
    var msg := f.gradescope && notRun > 0 && !f.csv;
    var k := f.selector.value;
    GsLoopSelected(f, msg, scored, 0, [], k);
    EmitDocuments(f, notRun, possible, scored);
    if 1 <= k <= |scored| {
      assert [] + GsTestsOf(scored[k - 1]) == GsTestsOf(scored[k - 1]);
    }
  }

  /** With a selector, the documents are exactly those the loop prints. */
  lemma EmitDocuments(f: Flags, notRun: nat, possible: nat, scored: seq<Scored>)
    requires f.selector.Some?
    ensures Emit(f, notRun, possible, scored).documents == GsLoop(f, f.gradescope && notRun > 0 && !f.csv, scored, 0, []).0
  {
    var loop := GsLoop(f, f.gradescope && notRun > 0 && !f.csv, scored, 0, []);
    assert loop.0 + [] == loop.0;
  }

  /** Without a selector, gradescope gets one document with every category, in order, and the sum of the totals. */
  lemma GradescopeAll(f: Flags, notRun: nat, possible: nat, scored: seq<Scored>)
    requires f.gradescope && f.selector.None?
    ensures Emit(f, notRun, possible, scored).documents ==
      [GsDoc(AllTests(scored), notRun > 0 && !f.csv, Sum(Totals(scored)))]
  {
    var msg := f.gradescope && notRun > 0 && !f.csv;
    GsLoopAll(f, msg, scored, 0, []);
    assert scored[0..] == scored;
    assert [] + AllTests(scored) == AllTests(scored);
  }

  // ------------------------------------------------------------ the script

  /** With outcomes 0 or 1 and weights that add up, every assignment total lies between 0 and the assignment's points. */
  lemma TotalsBounded(tests: Tests, as_: seq<Assignment>, scored: seq<Scored>)
    requires Binary(tests) && ScoreAll(tests, as_) == Ok(scored)
    requires forall i :: 0 <= i < |as_| ==> WeightsAddUp(as_[i])
    ensures |Totals(scored)| == |as_|
    ensures forall i :: 0 <= i < |as_| ==> 0.0 <= Totals(scored)[i] <= as_[i].points as real
  {
    forall i | 0 <= i < |as_|
      ensures 0.0 <= Totals(scored)[i] <= as_[i].points as real
    {
      AssignmentTotal(tests, as_[i]);
    }
  }

  /**
   * The script after the manifest is read: report, scores, output. It
   * fails only with KeyError; in CSV mode it prints one total per
   * assignment, each between 0 and the assignment's points.
   */
  function GradeManifest(as_: seq<Assignment>, m: Manifest, suites: seq<Suite>, f: Flags): (r: Result<GradeOutput>)
    requires forall i :: 0 <= i < |as_| ==> WeightsAddUp(as_[i])
    requires WellFormed(m.tests) && Binary(m.tests)
    ensures r.Err? ==> r.error.KeyError?
    ensures r.Ok? && f.csv ==> (r.value.csv.Some? && |r.value.csv.value| == |as_|
      && forall i :: 0 <= i < |as_| ==> 0.0 <= r.value.csv.value[i] <= as_[i].points as real)
  {
    match ApplyReport(Tally(m.tests, {}), suites)
    case Err(e) => Err(e)
    case Ok(t) =>
      match ScoreAll(t.tests, as_)
      case Err(e) => Err(e)
      case Ok(scored) =>
        TotalsBounded(t.tests, as_, scored);
        Ok(Emit(f, |m.allIds - t.runIds|, |m.allIds|, scored))
  }

  /**
   * The script after argument parsing, for a table of assignments whose
   * weights add up. It fails with ValueError exactly when a manifest line
   * does not split, and otherwise only with KeyError.
   */
  function GradeWith(as_: seq<Assignment>, lines: seq<string>, suites: seq<Suite>, f: Flags): (r: Result<GradeOutput>)
    requires forall i :: 0 <= i < |as_| ==> WeightsAddUp(as_[i])
    ensures (r.Err? && r.error.ValueError?) <==> exists i :: 0 <= i < |lines| && ParseLines(lines)[i].Err?
    ensures r.Ok? && f.csv ==> (r.value.csv.Some? && |r.value.csv.value| == |as_|
      && forall i :: 0 <= i < |as_| ==> 0.0 <= r.value.csv.value[i] <= as_[i].points as real)
  {
    match LoadManifest(lines)
    case Err(e) => Err(e)
    case Ok(m) =>
      assert Binary(m.tests);
      GradeManifest(as_, m, suites, f)
  }

  /** The script as shipped, with its two assignments. */
  function GradeRun(lines: seq<string>, suites: seq<Suite>, f: Flags): (r: Result<GradeOutput>)
    ensures (r.Err? && r.error.ValueError?) <==> exists i :: 0 <= i < |lines| && ParseLines(lines)[i].Err?
    ensures r.Ok? && f.csv ==> (r.value.csv.Some? && |r.value.csv.value| == |ASSIGNMENTS|
      && forall i :: 0 <= i < |ASSIGNMENTS| ==> 0.0 <= r.value.csv.value[i] <= ASSIGNMENTS[i].points as real)
  {
    AssignmentTable();
    GradeWith(ASSIGNMENTS, lines, suites, f)
  }
}
