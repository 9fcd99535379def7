/**
 * `match_and_merge_two_datasets`: standardise the key columns of two working
 * copies, pair A rows with B rows by greedy first fit, and assemble the
 * merged table and the two tables of rows left over.
 */
module Standardizer {
  import opened Wrappers
  import opened Tables
  import opened Scoring
  import opened Frames
  import opened GreedyMatch

  // ---------------------------------------------------------------------------
  // Key standardisation on the working copy

  /**
   * One mapping entry: a key whose column already has the canonical name is
   * left alone; otherwise its column is renamed to the canonical name and its
   * values normalised.
   */
  function StandardizedKey(t: Table, key: string, actual: string): (r: Result<Table, Error>)
    requires RowsMatch(t.columns, t.rows)
    ensures r.Ok? ==> RowsMatch(r.value.columns, r.value.rows) && |r.value.rows| == |t.rows|
    ensures r.Ok? && Distinct(t.columns) ==> Distinct(r.value.columns)
  {
    if actual == key then Ok(t)
    else
      RenamedDistinct(t.columns, actual, key);
      NormalizedColumn(RenamedTable(t, actual, key), key)
  }

  /** The working copy after the entries of `m`, in insertion order, or the first exception. */
  function Standardized(t: Table, m: Mapping): (r: Result<Table, Error>)
    requires RowsMatch(t.columns, t.rows)
    ensures r.Ok? ==> RowsMatch(r.value.columns, r.value.rows) && |r.value.rows| == |t.rows|
    ensures r.Ok? && Distinct(t.columns) ==> Distinct(r.value.columns)
    decreases |m|
  {
    if m == [] then Ok(t)
    else
      match Standardized(t, m[..|m| - 1])
      case Err(e) => Err(e)
      case Ok(w) => StandardizedKey(w, m[|m| - 1].0, m[|m| - 1].1)
  }

  /** An exception raised by an entry ends the standardisation. */
  lemma {:induction false} ErrorIsFinal(t: Table, m: Mapping, k: nat)
    requires RowsMatch(t.columns, t.rows) && k <= |m|
    requires Standardized(t, m[..k]).Err?
    ensures Standardized(t, m) == Standardized(t, m[..k])
    decreases |m|
  {
    if k < |m| {
      assert m[..|m| - 1][..k] == m[..k];
      ErrorIsFinal(t, m[..|m| - 1], k);
    } else {
      assert m[..k] == m;
    }
  }

  /** Lines 28-36: the loop over the mapping, renaming and normalising the frame in place. */
  method StandardizeKeys(f: Frame, m: Mapping) returns (err: Option<Error>)
    requires f.Valid()
    modifies f
    ensures f.Valid()
    ensures err.None? <==> Standardized(old(f.View()), m).Ok?
    ensures err.None? ==> f.View() == Standardized(old(f.View()), m).value
    ensures err.Some? ==> Standardized(old(f.View()), m) == Err(err.value)
  {
    ghost var t0 := f.View();
    err := None;
    for k := 0 to |m|
      invariant f.Valid()
      invariant err.None? && Standardized(t0, m[..k]) == Ok(f.View())
    {
      var (key, actual) := m[k];
      assert m[..k + 1][..k] == m[..k] && m[..k + 1][k] == (key, actual);
      ghost var before := f.View();
      if actual != key {
        f.Rename(actual, key);
        err := f.NormalizeColumn(key);
        assert Standardized(t0, m[..k + 1]) == NormalizedColumn(RenamedTable(before, actual, key), key);
        if err.Some? {
          ErrorIsFinal(t0, m, k + 1);
          return;
        }
      }
    }
    assert m[..|m|] == m;
  }

  lemma {:induction false} RenamedOccurrences(columns: seq<string>, from: string, to: string)
    requires from != to
    ensures Occurrences(RenamedColumns(columns, from, to), to) == Occurrences(columns, from) + Occurrences(columns, to)
    ensures Occurrences(RenamedColumns(columns, from, to), from) == 0
  {
    if columns != [] {
      RenamedOccurrences(columns[1..], from, to);
      assert columns == [columns[0]] + columns[1..];
      assert RenamedColumns(columns, from, to)
        == [if columns[0] == from then to else columns[0]] + RenamedColumns(columns[1..], from, to);
    }
  }

  /** Two equal entries make their value occur at least twice. */
  lemma OccursTwice(s: seq<string>, i: nat, j: nat)
    requires i < j < |s|
    ensures s[i] == s[j] ==> Occurrences(s, s[i]) >= 2
  {
    assert s == s[..j] + [s[j]] + s[j + 1..];
    assert s[i] == s[..j][i];
  }

  /** Renaming keeps labels unique as long as the new label ends up occurring at most once. */
  lemma RenamedDistinct(columns: seq<string>, from: string, to: string)
    ensures Distinct(columns) && Occurrences(RenamedColumns(columns, from, to), to) <= 1
            ==> Distinct(RenamedColumns(columns, from, to))
  {
    var r := RenamedColumns(columns, from, to);
    if Distinct(columns) && Occurrences(r, to) <= 1 {
      forall i, j | 0 <= i < j < |r| ensures r[i] != r[j] {
        OccursTwice(r, i, j);
      }
    }
  }

  lemma OccursOnceInDistinct(columns: seq<string>, c: string)
    requires Distinct(columns)
    ensures Occurrences(columns, c) == if c in columns then 1 else 0
  {
    if columns != [] {
      assert columns == [columns[0]] + columns[1..];
      DistinctCons(columns[0], columns[1..]);
      OccursOnceInDistinct(columns[1..], c);
    }
  }

  /**
   * A renamed key. On a table with unique labels the entry succeeds exactly
   * when one of the two names is a column (renaming onto an existing column
   * duplicates the name and a missing name raises); then the canonical name
   * occurs once, the old name is gone, the canonical column holds the
   * normalised text of the renamed column (or of the canonical one, when the
   * old name was already gone), and every other column is untouched.
   */
  lemma RenamedKeyIsNormalized(t: Table, key: string, actual: string)
    requires WellFormed(t) && actual != key
    ensures StandardizedKey(t, key, actual).Ok? <==> (actual in t.columns <==> key !in t.columns)
    ensures var r := StandardizedKey(t, key, actual);
      r.Ok? ==>
        Occurrences(r.value.columns, key) == 1 && actual !in r.value.columns
        && forall i :: 0 <= i < |t.rows| ==>
             r.value.rows[i][key] == NormalizedCell(if actual in t.columns then t.rows[i][actual] else t.rows[i][key])
             && forall d :: d in t.rows[i] && d != key && d != actual ==> r.value.rows[i][d] == t.rows[i][d]
  {
    RenamedOccurrences(t.columns, actual, key);
    OccursOnceInDistinct(t.columns, actual);
    OccursOnceInDistinct(t.columns, key);
    var renamed := RenamedTable(t, actual, key);
    assert actual !in renamed.columns;
    forall i | 0 <= i < |t.rows| ensures actual in t.rows[i] <==> actual in t.columns {
      assert t.rows[i].Keys == set c | c in t.columns;
    }
  }

  /** A mapping whose every entry is already named canonically leaves the table as it is. */
  lemma {:induction false} CanonicalMappingKeepsTable(t: Table, m: Mapping)
    requires RowsMatch(t.columns, t.rows)
    requires forall k :: 0 <= k < |m| ==> m[k].0 == m[k].1
    ensures Standardized(t, m) == Ok(t)
    decreases |m|
  {
    if m != [] {
      var init := m[..|m| - 1];
      assert forall k :: 0 <= k < |init| ==> init[k] == m[k];
      CanonicalMappingKeepsTable(t, init);
      assert m[|m| - 1].0 == m[|m| - 1].1;
    }
  }

  /** One entry leaves a column that is neither its key nor its mapped column alone. */
  lemma UnmappedColumnKeptByKey(w: Table, key: string, actual: string, c: string)
    requires RowsMatch(w.columns, w.rows)
    requires c != key && c != actual
    requires StandardizedKey(w, key, actual).Ok?
    ensures var v := StandardizedKey(w, key, actual).value;
      (c in v.columns <==> c in w.columns)
      && forall i :: 0 <= i < |w.rows| && c in w.rows[i] ==> c in v.rows[i] && v.rows[i][c] == w.rows[i][c]
  {
    if actual != key {
      var renamed := RenamedTable(w, actual, key);
      assert c in renamed.columns <==> c in w.columns;
    }
  }

  /**
   * A column that no entry renames (every entry naming it, as key or as
   * mapped column, is the canonical entry `(c, c)`) keeps its values.
   */
  lemma {:induction false} UnmappedColumnKept(t: Table, m: Mapping, c: string)
    requires RowsMatch(t.columns, t.rows)
    requires forall k :: 0 <= k < |m| ==> m[k] == (c, c) || (m[k].0 != c && m[k].1 != c)
    requires Standardized(t, m).Ok?
    ensures var w := Standardized(t, m).value;
      (c in w.columns <==> c in t.columns)
      && forall i :: 0 <= i < |t.rows| && c in t.rows[i] ==> c in w.rows[i] && w.rows[i][c] == t.rows[i][c]
    decreases |m|
  {
    if m != [] {
      var init := m[..|m| - 1];
      var last := m[|m| - 1];
      assert forall k :: 0 <= k < |init| ==> init[k] == m[k];
      UnmappedColumnKept(t, init, c);
      var w := Standardized(t, init).value;
      if last != (c, c) {
        UnmappedColumnKeptByKey(w, last.0, last.1, c);
      }
    }
  }

  /**
   * A key column that already carries its canonical name keeps its raw
   * values, provided no other entry maps to that name (an entry that does
   * renames another column onto it, or renames it away).
   */
  lemma CanonicalKeyKeepsValues(t: Table, m: Mapping, k: nat)
    requires RowsMatch(t.columns, t.rows) && Distinct(KeysOf(m))
    requires k < |m| && m[k].0 == m[k].1
    requires forall i :: 0 <= i < |m| && i != k ==> m[i].1 != m[k].0
    requires Standardized(t, m).Ok?
    ensures var w := Standardized(t, m).value; var c := m[k].0;
      (c in w.columns <==> c in t.columns)
      && forall i :: 0 <= i < |t.rows| && c in t.rows[i] ==> c in w.rows[i] && w.rows[i][c] == t.rows[i][c]
  {
    var c := m[k].0;
    forall i | 0 <= i < |m| ensures m[i] == (c, c) || (m[i].0 != c && m[i].1 != c) {
      if i != k {
        assert KeysOf(m)[i] != KeysOf(m)[k];
      }
    }
    UnmappedColumnKept(t, m, c);
  }

  /**
   * Mapping entries that do not interfere: distinct keys, distinct mapped
   * columns, and no entry's mapped column is another entry's key.
   */
  predicate Untangled(m: Mapping)
  {
    forall i, j :: 0 <= i < |m| && 0 <= j < |m| && i != j ==>
      m[i].0 != m[j].0 && m[i].1 != m[j].1 && m[i].1 != m[j].0
  }

  /**
   * After the whole loop, for untangled entries: each entry whose column is
   * not named canonically succeeded because exactly one of its two names was
   * a column of the input; its canonical name now holds the normalised text
   * of that column, and its old name is gone.
   */
  lemma {:induction false} MappedColumnNormalized(t: Table, m: Mapping, j: nat)
    requires WellFormed(t) && Untangled(m) && j < |m| && m[j].0 != m[j].1
    requires Standardized(t, m).Ok?
    ensures m[j].1 in t.columns <==> m[j].0 !in t.columns
    ensures var w := Standardized(t, m).value; var key := m[j].0; var actual := m[j].1;
      key in w.columns && actual !in w.columns
      && forall i :: 0 <= i < |t.rows| ==>
           key in w.rows[i]
           && w.rows[i][key] == NormalizedCell(if actual in t.columns then t.rows[i][actual] else t.rows[i][key])
    decreases |m|
  {
    var init := m[..|m| - 1];
    var last := m[|m| - 1];
    UntangledInit(m);
    var w0 := Standardized(t, init).value;
    assert Standardized(t, m) == StandardizedKey(w0, last.0, last.1);
    if j < |m| - 1 {
      MappedColumnNormalized(t, init, j);
      assert m[j] == init[j];
      LaterEntryKeeps(t, w0, last.0, last.1, m[j].0, m[j].1);
    } else {
      LastEntryNormalized(t, init, last.0, last.1);
    }
  }

  /** Dropping the last entry keeps the entries untangled, and none of them names the last entry's names. */
  lemma UntangledInit(m: Mapping)
    requires Untangled(m) && m != []
    ensures Untangled(m[..|m| - 1])
    ensures var init := m[..|m| - 1]; var last := m[|m| - 1];
      forall k :: 0 <= k < |init| ==>
        init[k].0 != last.0 && init[k].1 != last.0 && init[k].0 != last.1 && init[k].1 != last.1
  {
    var init := m[..|m| - 1];
    forall a, b | 0 <= a < |init| && 0 <= b < |init| && a != b
      ensures init[a].0 != init[b].0 && init[a].1 != init[b].1 && init[a].1 != init[b].0
    {
      assert init[a] == m[a] && init[b] == m[b];
    }
    forall k | 0 <= k < |init|
      ensures init[k].0 != m[|m| - 1].0 && init[k].1 != m[|m| - 1].0
      ensures init[k].0 != m[|m| - 1].1 && init[k].1 != m[|m| - 1].1
    {
      assert init[k] == m[k];
    }
  }

  /** An entry naming neither `key` nor `actual` keeps what `MappedColumnNormalized` states about them. */
  lemma LaterEntryKeeps(t: Table, w0: Table, k2: string, a2: string, key: string, actual: string)
    requires WellFormed(t) && RowsMatch(w0.columns, w0.rows) && |w0.rows| == |t.rows|
    requires key != k2 && key != a2 && actual != k2 && actual != a2
    requires actual in t.columns <==> key !in t.columns
    requires StandardizedKey(w0, k2, a2).Ok?
    requires key in w0.columns && actual !in w0.columns
    requires forall i :: 0 <= i < |t.rows| ==>
      key in w0.rows[i]
      && w0.rows[i][key] == NormalizedCell(if actual in t.columns then t.rows[i][actual] else t.rows[i][key])
    ensures var w := StandardizedKey(w0, k2, a2).value;
      key in w.columns && actual !in w.columns
      && forall i :: 0 <= i < |t.rows| ==>
           key in w.rows[i]
           && w.rows[i][key] == NormalizedCell(if actual in t.columns then t.rows[i][actual] else t.rows[i][key])
  {
    UnmappedColumnKeptByKey(w0, k2, a2, key);
    UnmappedColumnKeptByKey(w0, k2, a2, actual);
  }

  /** The step for the last entry of `MappedColumnNormalized`: the entries before it left both its names alone. */
  lemma LastEntryNormalized(t: Table, init: Mapping, key: string, actual: string)
    requires WellFormed(t) && key != actual
    requires forall k :: 0 <= k < |init| ==> init[k].0 != key && init[k].1 != key
    requires forall k :: 0 <= k < |init| ==> init[k].0 != actual && init[k].1 != actual
    requires Standardized(t, init).Ok? && StandardizedKey(Standardized(t, init).value, key, actual).Ok?
    ensures actual in t.columns <==> key !in t.columns
    ensures var w := StandardizedKey(Standardized(t, init).value, key, actual).value;
      key in w.columns && actual !in w.columns
      && forall i :: 0 <= i < |t.rows| ==>
           key in w.rows[i]
           && w.rows[i][key] == NormalizedCell(if actual in t.columns then t.rows[i][actual] else t.rows[i][key])
  {
    var w0 := Standardized(t, init).value;
    UnmappedColumnKept(t, init, actual);
    UnmappedColumnKept(t, init, key);
    RenamedKeyIsNormalized(w0, key, actual);
    var w := StandardizedKey(w0, key, actual).value;
    forall i | 0 <= i < |t.rows|
      ensures key in w.rows[i]
      ensures w.rows[i][key] == NormalizedCell(if actual in t.columns then t.rows[i][actual] else t.rows[i][key])
    {
      assert t.rows[i].Keys == set c | c in t.columns;
      assert w.rows[i].Keys == set c | c in w.columns;
    }
  }

  // ---------------------------------------------------------------------------
  // Merged rows

  /** `[col for col in df2.columns if col not in col_mapping2.values()]`. */
  function NonKeyColumns(columns: seq<string>, m: Mapping): (r: seq<string>)
    ensures forall c :: c in r <==> c in columns && c !in Values(m)
    ensures Distinct(columns) ==> Distinct(r)
  {
    Without(columns, Values(m))
  }

  /** Every row has every one of `columns`. */
  predicate HasColumns(rows: seq<Row>, columns: seq<string>)
  {
    forall j :: 0 <= j < |rows| ==> (set c | c in columns) <= rows[j].Keys
  }

  /** The merged row: the A row with B's value written over it for each of `columns`. */
  function Combined(x: Row, y: Row, columns: seq<string>): Row
    requires (set c | c in columns) <= y.Keys
  {
    x + map c | c in columns :: y[c]
  }

  /**
   * A merged row has the A row's keys and `columns`; each of `columns` holds
   * B's value, overwriting A's on a name collision, and every other key keeps
   * the A row's value.
   */
  lemma CombinedRow(x: Row, y: Row, columns: seq<string>)
    requires (set c | c in columns) <= y.Keys
    ensures var r := Combined(x, y, columns);
      r.Keys == x.Keys + (set c | c in columns)
      && (forall c :: c in columns ==> r[c] == y[c])
      && (forall c :: c in x && c !in columns ==> r[c] == x[c])
  {
  }

  /** Lines 65-69: the combined row, filled field by field. */
  method CombineRow(x: Row, y: Row, columns: seq<string>) returns (r: Row)
    requires (set c | c in columns) <= y.Keys
    ensures r == Combined(x, y, columns)
  {
    r := x;
    for k := 0 to |columns|
      invariant r == Combined(x, y, columns[..k])
    {
      assert columns[..k + 1] == columns[..k] + [columns[k]];
      CombinedSnoc(x, y, columns[..k], columns[k]);
      r := r[columns[k] := y[columns[k]]];
    }
    assert columns[..|columns|] == columns;
  }

  /** Writing one more column of B over the row. */
  lemma CombinedSnoc(x: Row, y: Row, columns: seq<string>, c: string)
    requires (set d | d in columns) <= y.Keys && c in y
    ensures Combined(x, y, columns + [c]) == Combined(x, y, columns)[c := y[c]]
  {
    var r := Combined(x, y, columns + [c]);
    var s := Combined(x, y, columns)[c := y[c]];
    assert r.Keys == s.Keys;
    forall d | d in r.Keys ensures r[d] == s[d] {
    }
  }

  /**
   * B's mapped key columns never reach a merged row: a mapped B column is in
   * the merged row only when the A row has it, and then with A's value.
   */
  lemma MappedKeysNotMerged(x: Row, y: Row, bColumns: seq<string>, m: Mapping, c: string)
    requires (set c | c in bColumns) <= y.Keys
    requires c in Values(m)
    ensures var r := Combined(x, y, NonKeyColumns(bColumns, m));
      (c in r <==> c in x) && (c in x ==> r[c] == x[c])
  {
    CombinedRow(x, y, NonKeyColumns(bColumns, m));
  }

  // ---------------------------------------------------------------------------
  // Result assembly

  /** The merged rows of the first `n` A rows, in A order. */
  function MergedUpTo(origA: seq<Row>, origB: seq<Row>, nonKey: seq<string>, p: seq<Option<nat>>, n: nat): (r: seq<Row>)
    requires n <= |p| <= |origA| && InRange(p, |origB|) && HasColumns(origB, nonKey)
  {
    if n == 0 then []
    else
      MergedUpTo(origA, origB, nonKey, p, n - 1)
      + (if p[n - 1].Some? then [Combined(origA[n - 1], origB[p[n - 1].value], nonKey)] else [])
  }

  lemma MergedStep(origA: seq<Row>, origB: seq<Row>, nonKey: seq<string>, p: seq<Option<nat>>, i: nat)
    requires i < |p| <= |origA| && InRange(p, |origB|) && HasColumns(origB, nonKey)
    ensures MergedUpTo(origA, origB, nonKey, p, i + 1)
      == MergedUpTo(origA, origB, nonKey, p, i)
         + (if p[i].Some? then [Combined(origA[i], origB[p[i].value], nonKey)] else [])
  {
  }

  /** The unmatched rows among the first `n` A rows, in A order. */
  function UnmatchedUpTo(origA: seq<Row>, p: seq<Option<nat>>, n: nat): (r: seq<Row>)
    requires n <= |p| <= |origA|
  {
    if n == 0 then []
    else UnmatchedUpTo(origA, p, n - 1) + (if p[n - 1].None? then [origA[n - 1]] else [])
  }

  lemma UnmatchedStep(origA: seq<Row>, p: seq<Option<nat>>, i: nat)
    requires i < |p| <= |origA|
    ensures UnmatchedUpTo(origA, p, i + 1) == UnmatchedUpTo(origA, p, i) + (if p[i].None? then [origA[i]] else [])
  {
  }

  /** Each of the first `n` A rows gives exactly one merged or one unmatched row. */
  lemma {:induction false} AssembledCounts(origA: seq<Row>, origB: seq<Row>, nonKey: seq<string>, p: seq<Option<nat>>, n: nat)
    requires n <= |p| <= |origA| && InRange(p, |origB|) && HasColumns(origB, nonKey)
    ensures |MergedUpTo(origA, origB, nonKey, p, n)| == CountMatched(p[..n])
    ensures |UnmatchedUpTo(origA, p, n)| + CountMatched(p[..n]) == n
  {
    if n > 0 {
      AssembledCounts(origA, origB, nonKey, p, n - 1);
      assert p[..n][..n - 1] == p[..n - 1];
    }
  }

  /**
   * Where A row `i` goes: when paired, it is the base of merged row number
   * "matches before it"; otherwise it is unmatched row number "misses before it".
   */
  lemma {:induction false} RowPlacement(origA: seq<Row>, origB: seq<Row>, nonKey: seq<string>, p: seq<Option<nat>>,
                                        n: nat, i: nat)
    requires n <= |p| <= |origA| && InRange(p, |origB|) && HasColumns(origB, nonKey) && i < n
    ensures p[i].Some? ==>
      CountMatched(p[..i]) < |MergedUpTo(origA, origB, nonKey, p, n)|
      && MergedUpTo(origA, origB, nonKey, p, n)[CountMatched(p[..i])] == Combined(origA[i], origB[p[i].value], nonKey)
    ensures p[i].None? ==>
      i - CountMatched(p[..i]) < |UnmatchedUpTo(origA, p, n)|
      && UnmatchedUpTo(origA, p, n)[i - CountMatched(p[..i])] == origA[i]
  {
    AssembledCounts(origA, origB, nonKey, p, n - 1);
    if i < n - 1 {
      RowPlacement(origA, origB, nonKey, p, n - 1, i);
    }
  }

  predicate Increasing(s: seq<nat>)
  {
    forall i, j :: 0 <= i < j < |s| ==> s[i] < s[j]
  }

  /** `[i for i in range(n) if i not in claimed]`: the unclaimed positions, ascending. */
  function UnclaimedIndices(n: nat, claimed: set<nat>): (r: seq<nat>)
    ensures forall k :: 0 <= k < |r| ==> r[k] < n && r[k] !in claimed
    ensures Increasing(r)
  {
    if n == 0 then []
    else UnclaimedIndices(n - 1, claimed) + (if n - 1 in claimed then [] else [n - 1])
  }

  /** Every unclaimed position below `n` is listed. */
  lemma {:induction false} UnclaimedIndicesComplete(n: nat, claimed: set<nat>, j: nat)
    requires j < n && j !in claimed
    ensures j in UnclaimedIndices(n, claimed)
  {
    if j < n - 1 {
      UnclaimedIndicesComplete(n - 1, claimed, j);
    }
  }

  lemma {:induction false} UnclaimedIndicesOnlyBelow(n: nat, c: set<nat>, d: set<nat>)
    requires forall j: nat :: j < n ==> (j in c <==> j in d)
    ensures UnclaimedIndices(n, c) == UnclaimedIndices(n, d)
  {
    if n > 0 {
      UnclaimedIndicesOnlyBelow(n - 1, c, d);
    }
  }

  /** When every claimed position is below `n`, claimed and unclaimed positions add up to `n`. */
  lemma {:induction false} UnclaimedCount(n: nat, claimed: set<nat>)
    requires forall j :: j in claimed ==> j < n
    ensures |UnclaimedIndices(n, claimed)| + |claimed| == n
  {
    if n > 0 {
      if n - 1 in claimed {
        var rest := claimed - {n - 1};
        UnclaimedIndicesOnlyBelow(n - 1, claimed, rest);
        UnclaimedCount(n - 1, rest);
      } else {
        UnclaimedCount(n - 1, claimed);
      }
    }
  }

  /** `df.iloc[indices]`. */
  function SelectRows(rows: seq<Row>, indices: seq<nat>): (r: seq<Row>)
    requires forall k :: 0 <= k < |indices| ==> indices[k] < |rows|
    ensures |r| == |indices|
    ensures forall k :: 0 <= k < |indices| ==> r[k] == rows[indices[k]]
  {
    seq(|indices|, k requires 0 <= k < |indices| => rows[indices[k]])
  }

  /**
   * The labels of `pd.DataFrame(list_of_dicts)`: none for an empty list, else
   * the A labels followed by the merged-in B labels that A lacks.
   */
  function MergedColumns(aColumns: seq<string>, nonKey: seq<string>, rowCount: nat): (r: seq<string>)
    ensures rowCount > 0 ==> |aColumns| <= |r| && r[..|aColumns|] == aColumns
    ensures forall c :: c in r <==> rowCount > 0 && (c in aColumns || c in nonKey)
  {
    if rowCount == 0 then [] else aColumns + Without(nonKey, set c | c in aColumns)
  }

  /** The labels of `pd.DataFrame(unmatched_df1_rows)`: none for an empty list, else the A labels. */
  function UnmatchedColumns(aColumns: seq<string>, rowCount: nat): (r: seq<string>)
    ensures |r| == if rowCount == 0 then 0 else |aColumns|
    ensures forall c :: c in r <==> rowCount > 0 && c in aColumns
  {
    if rowCount == 0 then [] else aColumns
  }

  predicate RowsHaveKeys(rows: seq<Row>)
  {
    forall j :: 0 <= j < |rows| ==> HasKeys(rows[j])
  }

  // ---------------------------------------------------------------------------
  // The matching loop

  /**
   * Lines 49-74, one A row: scan the B rows in order, skip the claimed ones,
   * and on the first whose three scores reach their thresholds append the
   * combined row, claim that B position and stop.
   */
  method MatchRow(sc: Scorers, th: Thresholds, x: Row, workB: seq<Row>, origX: Row, origB: seq<Row>,
                  nonKey: seq<string>, matched: seq<Row>, claimed: set<nat>)
    returns (matched': seq<Row>, claimed': set<nat>, found: bool)
    requires |workB| == |origB| && (|workB| > 0 ==> HasKeys(x)) && RowsHaveKeys(workB)
    requires HasColumns(origB, nonKey)
    ensures var r := FirstFit(sc, th, x, workB, claimed, 0);
      found == r.Some?
      && (found ==> r.value < |origB| && matched' == matched + [Combined(origX, origB[r.value], nonKey)]
                    && claimed' == claimed + {r.value})
      && (!found ==> matched' == matched && claimed' == claimed)
  {
    matched', claimed', found := matched, claimed, false;
    ghost var at: nat := 0;
    for j := 0 to |workB|
      invariant !found && matched' == matched && claimed' == claimed
      invariant FirstFit(sc, th, x, workB, claimed, 0) == FirstFit(sc, th, x, workB, claimed, j)
    {
      if j in claimed' {
        continue;
      }
      var regionScore := sc.ratio(Str(x[Region]), Str(workB[j][Region]));
      var zoneScore := sc.ratio(Str(x[Zone]), Str(workB[j][Zone]));
      var woredaScore := sc.tokenSetRatio(Str(x[Woreda]), Str(workB[j][Woreda]));
      if regionScore >= th.region as real && zoneScore >= th.zone as real && woredaScore >= th.woreda as real {
        var combined := CombineRow(origX, origB[j], nonKey);
        matched' := matched' + [combined];
        claimed' := claimed' + {j};
        found := true;
        at := j;
        break;
      }
    }
    assert found ==> FirstFit(sc, th, x, workB, claimed, 0) == Some(at);
  }

  /** Turn `i` of the nested loops: A row `i` takes its first fit among the positions left, and claims it. */
  lemma GreedyStep(sc: Scorers, th: Thresholds, workA: seq<Row>, workB: seq<Row>, p: seq<Option<nat>>, i: nat)
    requires Scorable(workA, workB) && i < |workA| && p == Pairing(sc, th, workA, workB, |workA|)
    ensures |workB| > 0 ==> HasKeys(workA[i])
    ensures RowsHaveKeys(workB)
    ensures p[i] == FirstFit(sc, th, workA[i], workB, Claimed(p[..i]), 0)
    ensures Claimed(p[..i + 1]) == Claimed(p[..i]) + (if p[i].Some? then {p[i].value} else {})
  {
    PairingPrefix(sc, th, workA, workB, |workA|, i + 1);
    var prev := Pairing(sc, th, workA, workB, i);
    var q := Pairing(sc, th, workA, workB, i + 1);
    assert q == prev + [FirstFit(sc, th, workA[i], workB, Claimed(prev), 0)];
    assert p[..i] == q[..i] == prev && p[i] == q[i];
    assert p[..i + 1] == prev + [p[i]];
    ClaimedSnoc(prev, p[i]);
  }

  /**
   * Lines 43-77: each A row in order takes its first fit among the B rows
   * left; the result is the pairing's merged rows, unmatched A rows and
   * claimed B positions.
   */
  method GreedyMerge(sc: Scorers, th: Thresholds, workA: seq<Row>, workB: seq<Row>,
                     origA: seq<Row>, origB: seq<Row>, nonKey: seq<string>)
    returns (matched: seq<Row>, unmatchedA: seq<Row>, claimed: set<nat>)
    requires |workA| == |origA| && |workB| == |origB| && Scorable(workA, workB)
    requires HasColumns(origB, nonKey)
    ensures var p := Pairing(sc, th, workA, workB, |workA|);
      InRange(p, |origB|)
      && matched == MergedUpTo(origA, origB, nonKey, p, |p|)
      && unmatchedA == UnmatchedUpTo(origA, p, |p|)
      && claimed == Claimed(p)
    ensures |claimed| == |matched| && forall j :: j in claimed ==> j < |origB|
  {
    ghost var p := Pairing(sc, th, workA, workB, |workA|);
    PairingInRange(sc, th, workA, workB, |workA|);
    matched, unmatchedA, claimed := [], [], {};
    for i := 0 to |workA|
      invariant matched == MergedUpTo(origA, origB, nonKey, p, i)
      invariant unmatchedA == UnmatchedUpTo(origA, p, i)
      invariant claimed == Claimed(p[..i])
    {
      GreedyStep(sc, th, workA, workB, p, i);
      MergedStep(origA, origB, nonKey, p, i);
      UnmatchedStep(origA, p, i);
      var found;
      matched, claimed, found := MatchRow(sc, th, workA[i], workB, origA[i], origB, nonKey, matched, claimed);
      if !found {
        unmatchedA := unmatchedA + [origA[i]];
      }
    }
    assert p[..|workA|] == p;
    ClaimedMerged(sc, th, workA, workB, origA, origB, nonKey);
  }

  /** The greedy pairing claims one B position per merged row, each within B. */
  lemma ClaimedMerged(sc: Scorers, th: Thresholds, workA: seq<Row>, workB: seq<Row>,
                      origA: seq<Row>, origB: seq<Row>, nonKey: seq<string>)
    requires |workA| == |origA| && |workB| == |origB| && Scorable(workA, workB)
    requires HasColumns(origB, nonKey)
    ensures var p := Pairing(sc, th, workA, workB, |workA|);
      InRange(p, |origB|)
      && |Claimed(p)| == |MergedUpTo(origA, origB, nonKey, p, |p|)|
      && forall j :: j in Claimed(p) ==> j < |origB|
  {
    var p := Pairing(sc, th, workA, workB, |workA|);
    PairingInRange(sc, th, workA, workB, |workA|);
    ClaimedCount(sc, th, workA, workB, |workA|);
    AssembledCounts(origA, origB, nonKey, p, |p|);
    assert p[..|p|] == p;
  }

  // ---------------------------------------------------------------------------
  // The whole function

  /** The three tables the function returns. */
  datatype Outcome = Outcome(merged: Table, unmatched1: Table, unmatched2: Table)

  /**
   * The key the first scoring (lines 56-58) fails to find, in the order the
   * lookups are made, or None when both working copies have all three keys.
   */
  function FirstMissingKey(aColumns: seq<string>, bColumns: seq<string>): (r: Option<string>)
    ensures r.None? <==> Region in aColumns && Region in bColumns && Zone in aColumns && Zone in bColumns
                         && Woreda in aColumns && Woreda in bColumns
    ensures r.Some? ==> (r.value == Region || r.value == Zone || r.value == Woreda)
                        && (r.value !in aColumns || r.value !in bColumns)
  {
    if Region !in aColumns || Region !in bColumns then Some(Region)
    else if Zone !in aColumns || Zone !in bColumns then Some(Zone)
    else if Woreda !in aColumns || Woreda !in bColumns then Some(Woreda)
    else None
  }

  lemma ScorableWhenKeysPresent(w1: Table, w2: Table)
    requires RowsMatch(w1.columns, w1.rows) && RowsMatch(w2.columns, w2.rows)
    requires |w1.rows| > 0 && |w2.rows| > 0 ==> FirstMissingKey(w1.columns, w2.columns).None?
    ensures Scorable(w1.rows, w2.rows)
  {
    if |w1.rows| > 0 && |w2.rows| > 0 {
      forall i | 0 <= i < |w1.rows| ensures HasKeys(w1.rows[i]) {
        assert w1.rows[i].Keys == set c | c in w1.columns;
      }
      forall j | 0 <= j < |w2.rows| ensures HasKeys(w2.rows[j]) {
        assert w2.rows[j].Keys == set c | c in w2.columns;
      }
    }
  }

  lemma NonKeyColumnsPresent(df2: Table, m2: Mapping)
    requires WellFormed(df2)
    ensures HasColumns(df2.rows, NonKeyColumns(df2.columns, m2))
  {
    forall j | 0 <= j < |df2.rows| ensures (set c | c in NonKeyColumns(df2.columns, m2)) <= df2.rows[j].Keys {
      assert df2.rows[j].Keys == set c | c in df2.columns;
    }
  }

  /** Lines 79-83: the merged table, the unmatched A rows, and `df2.iloc` of the unclaimed B positions. */
  function Assemble(df1: Table, df2: Table, nonKey: seq<string>, p: seq<Option<nat>>): (o: Outcome)
    requires |p| == |df1.rows| && InRange(p, |df2.rows|) && HasColumns(df2.rows, nonKey)
    ensures |o.merged.rows| == CountMatched(p) && |o.merged.rows| + |o.unmatched1.rows| == |df1.rows|
    ensures o.unmatched2.columns == df2.columns
  {
    AssembledCounts(df1.rows, df2.rows, nonKey, p, |p|);
    assert p[..|p|] == p;
    var merged := MergedUpTo(df1.rows, df2.rows, nonKey, p, |p|);
    var unmatched := UnmatchedUpTo(df1.rows, p, |p|);
    var unclaimed := UnclaimedIndices(|df2.rows|, Claimed(p));
    Outcome(Table(MergedColumns(df1.columns, nonKey, |merged|), merged),
            Table(UnmatchedColumns(df1.columns, |unmatched|), unmatched),
            Table(df2.columns, SelectRows(df2.rows, unclaimed)))
  }

  /**
   * `unmatched_df2` is the B rows no A row was paired with, in B order: each
   * listed position is paired with no A row, and every such position is listed.
   */
  lemma UnmatchedBRows(df1: Table, df2: Table, nonKey: seq<string>, p: seq<Option<nat>>)
    requires |p| == |df1.rows| && InRange(p, |df2.rows|) && HasColumns(df2.rows, nonKey)
    ensures var o := Assemble(df1, df2, nonKey, p); var idx := UnclaimedIndices(|df2.rows|, Claimed(p));
      o.unmatched2.columns == df2.columns && |o.unmatched2.rows| == |idx| && Increasing(idx)
      && (forall k :: 0 <= k < |idx| ==>
            idx[k] < |df2.rows| && o.unmatched2.rows[k] == df2.rows[idx[k]]
            && forall i :: 0 <= i < |p| ==> p[i] != Some(idx[k]))
      && (forall j :: 0 <= j < |df2.rows| && (forall i :: 0 <= i < |p| ==> p[i] != Some(j)) ==> j in idx)
  {
    var idx := UnclaimedIndices(|df2.rows|, Claimed(p));
    forall k | 0 <= k < |idx| ensures forall i :: 0 <= i < |p| ==> p[i] != Some(idx[k]) {
      ClaimedHolds(p, idx[k]);
    }
    forall j | 0 <= j < |df2.rows| && (forall i :: 0 <= i < |p| ==> p[i] != Some(j)) ensures j in idx {
      ClaimedHolds(p, j);
      UnclaimedIndicesComplete(|df2.rows|, Claimed(p), j);
    }
  }

  /** What `match_and_merge_two_datasets` returns, or the exception it raises. */
  function MatchAndMergeSpec(df1: Table, df2: Table, m1: Mapping, m2: Mapping, sc: Scorers, th: Thresholds)
    : (r: Result<Outcome, Error>)
    requires WellFormed(df1) && WellFormed(df2)
    ensures Standardized(df1, m1).Err? ==> r == Err(Standardized(df1, m1).error)
    ensures Standardized(df1, m1).Ok? && Standardized(df2, m2).Err? ==> r == Err(Standardized(df2, m2).error)
    ensures r.Ok? ==> |r.value.merged.rows| + |r.value.unmatched1.rows| == |df1.rows|
                      && r.value.unmatched2.columns == df2.columns
  {
    match Standardized(df1, m1)
    case Err(e) => Err(e)
    case Ok(w1) =>
      match Standardized(df2, m2)
      case Err(e) => Err(e)
      case Ok(w2) =>
        var missing := FirstMissingKey(w1.columns, w2.columns);
        if |w1.rows| > 0 && |w2.rows| > 0 && missing.Some? then Err(KeyNotFound(missing.value))
        else
          ScorableWhenKeysPresent(w1, w2);
          NonKeyColumnsPresent(df2, m2);
          PairingInRange(sc, th, w1.rows, w2.rows, |w1.rows|);
          Ok(Assemble(df1, df2, NonKeyColumns(df2.columns, m2), Pairing(sc, th, w1.rows, w2.rows, |w1.rows|)))
  }

  lemma {:induction false} MergedRowKeys(origA: seq<Row>, origB: seq<Row>, aColumns: seq<string>, nonKey: seq<string>,
                                         p: seq<Option<nat>>, n: nat)
    requires n <= |p| <= |origA| && InRange(p, |origB|) && HasColumns(origB, nonKey)
    requires RowsMatch(aColumns, origA)
    ensures RowsMatch(aColumns + Without(nonKey, set c | c in aColumns), MergedUpTo(origA, origB, nonKey, p, n))
  {
    if n > 0 {
      MergedRowKeys(origA, origB, aColumns, nonKey, p, n - 1);
      if p[n - 1].Some? {
        CombinedRow(origA[n - 1], origB[p[n - 1].value], nonKey);
      }
      var columns := aColumns + Without(nonKey, set c | c in aColumns);
      assert (set c | c in columns) == (set c | c in aColumns) + (set c | c in nonKey);
    }
  }

  lemma {:induction false} UnmatchedRowsFromA(origA: seq<Row>, p: seq<Option<nat>>, n: nat)
    requires n <= |p| <= |origA|
    ensures forall k :: 0 <= k < |UnmatchedUpTo(origA, p, n)| ==> UnmatchedUpTo(origA, p, n)[k] in origA
  {
    if n > 0 {
      UnmatchedRowsFromA(origA, p, n - 1);
    }
  }

  /** The three frames `Assemble` builds are well formed. */
  lemma AssembledWellFormed(df1: Table, df2: Table, nonKey: seq<string>, p: seq<Option<nat>>)
    requires WellFormed(df1) && WellFormed(df2) && Distinct(nonKey)
    requires |p| == |df1.rows| && InRange(p, |df2.rows|) && HasColumns(df2.rows, nonKey)
    ensures var o := Assemble(df1, df2, nonKey, p);
      WellFormed(o.merged) && WellFormed(o.unmatched1) && WellFormed(o.unmatched2)
  {
    var o := Assemble(df1, df2, nonKey, p);
    MergedRowKeys(df1.rows, df2.rows, df1.columns, nonKey, p, |p|);
    var extra := Without(nonKey, set c | c in df1.columns);
    DistinctConcat(df1.columns, extra);
    UnmatchedRowsFromA(df1.rows, p, |p|);
    var u := o.unmatched1.rows;
    forall k | 0 <= k < |u| ensures u[k].Keys == set c | c in o.unmatched1.columns {
      var i :| 0 <= i < |df1.rows| && df1.rows[i] == u[k];
    }
  }

  /** When the pairing claims as many B rows as it matches, `Assemble` partitions both inputs. */
  lemma AssembledCountsPartition(df1: Table, df2: Table, nonKey: seq<string>, p: seq<Option<nat>>)
    requires |p| == |df1.rows| && InRange(p, |df2.rows|) && HasColumns(df2.rows, nonKey)
    requires |Claimed(p)| == CountMatched(p) && forall j :: j in Claimed(p) ==> j < |df2.rows|
    ensures var o := Assemble(df1, df2, nonKey, p);
      |o.merged.rows| + |o.unmatched1.rows| == |df1.rows|
      && |o.merged.rows| + |o.unmatched2.rows| == |df2.rows|
  {
    AssembledCounts(df1.rows, df2.rows, nonKey, p, |p|);
    assert p[..|p|] == p;
    UnclaimedCount(|df2.rows|, Claimed(p));
  }

  /**
   * The partitions: every A row is either the base of one merged row or one
   * unmatched A row; every B row is either claimed by one merged row or one
   * unmatched B row; and the three tables are well formed.
   */
  lemma OutcomePartitions(df1: Table, df2: Table, m1: Mapping, m2: Mapping, sc: Scorers, th: Thresholds)
    requires WellFormed(df1) && WellFormed(df2)
    requires MatchAndMergeSpec(df1, df2, m1, m2, sc, th).Ok?
    ensures var o := MatchAndMergeSpec(df1, df2, m1, m2, sc, th).value;
      |o.merged.rows| + |o.unmatched1.rows| == |df1.rows|
      && |o.merged.rows| + |o.unmatched2.rows| == |df2.rows|
      && WellFormed(o.merged) && WellFormed(o.unmatched1) && WellFormed(o.unmatched2)
  {
    var w1 := Standardized(df1, m1).value;
    var w2 := Standardized(df2, m2).value;
    ScorableWhenKeysPresent(w1, w2);
    NonKeyColumnsPresent(df2, m2);
    var nonKey := NonKeyColumns(df2.columns, m2);
    var p := Pairing(sc, th, w1.rows, w2.rows, |w1.rows|);
    PairingInRange(sc, th, w1.rows, w2.rows, |w1.rows|);
    ClaimedCount(sc, th, w1.rows, w2.rows, |w1.rows|);
    assert MatchAndMergeSpec(df1, df2, m1, m2, sc, th) == Ok(Assemble(df1, df2, nonKey, p));
    AssembledCountsPartition(df1, df2, nonKey, p);
    AssembledWellFormed(df1, df2, nonKey, p);
  }

  /** Every merged row combines some matched A row with the B row it was paired with. */
  lemma {:induction false} MergedRowOrigin(origA: seq<Row>, origB: seq<Row>, nonKey: seq<string>,
                                           p: seq<Option<nat>>, n: nat, k: nat)
    requires n <= |p| <= |origA| && InRange(p, |origB|) && HasColumns(origB, nonKey)
    requires k < |MergedUpTo(origA, origB, nonKey, p, n)|
    ensures exists i :: (0 <= i < n && p[i].Some?
      && MergedUpTo(origA, origB, nonKey, p, n)[k] == Combined(origA[i], origB[p[i].value], nonKey))
  {
    var prev := MergedUpTo(origA, origB, nonKey, p, n - 1);
    if k < |prev| {
      MergedRowOrigin(origA, origB, nonKey, p, n - 1, k);
    } else {
      assert p[n - 1].Some?;
    }
  }

  /** The merged rows of a greedy pairing come from pairs that pass all thresholds. */
  lemma PairedRowPassesThresholds(sc: Scorers, th: Thresholds, df1: Table, df2: Table, a: seq<Row>, b: seq<Row>,
                                  nonKey: seq<string>, k: nat)
    requires |a| == |df1.rows| && |b| == |df2.rows| && Scorable(a, b) && HasColumns(df2.rows, nonKey)
    requires InRange(Pairing(sc, th, a, b, |a|), |b|)
    requires k < |Assemble(df1, df2, nonKey, Pairing(sc, th, a, b, |a|)).merged.rows|
    ensures exists i, j :: (0 <= i < |a| && 0 <= j < |b|
      && Assemble(df1, df2, nonKey, Pairing(sc, th, a, b, |a|)).merged.rows[k] == Combined(df1.rows[i], df2.rows[j], nonKey)
      && HasKeys(a[i]) && HasKeys(b[j]) && Accepts(sc, th, a[i], b[j]))
  {
    var p := Pairing(sc, th, a, b, |a|);
    MergedRowOrigin(df1.rows, df2.rows, nonKey, p, |p|, k);
    var i :| 0 <= i < |p| && p[i].Some?
      && MergedUpTo(df1.rows, df2.rows, nonKey, p, |p|)[k] == Combined(df1.rows[i], df2.rows[p[i].value], nonKey);
    PairsPassAllThresholds(sc, th, a, b, |a|, i);
    var j := p[i].value;
    assert Assemble(df1, df2, nonKey, p).merged.rows[k] == Combined(df1.rows[i], df2.rows[j], nonKey);
  }

  /**
   * Every row of `merged_df` is an original df1 row combined with an
   * original df2 row whose standardized keys passed all three thresholds.
   */
  lemma MergedRowsPassThresholds(df1: Table, df2: Table, m1: Mapping, m2: Mapping, sc: Scorers, th: Thresholds, k: nat)
    returns (i: nat, j: nat)
    requires WellFormed(df1) && WellFormed(df2)
    requires MatchAndMergeSpec(df1, df2, m1, m2, sc, th).Ok?
    requires k < |MatchAndMergeSpec(df1, df2, m1, m2, sc, th).value.merged.rows|
    ensures i < |df1.rows| && j < |df2.rows|
    ensures MatchAndMergeSpec(df1, df2, m1, m2, sc, th).value.merged.rows[k]
            == Combined(df1.rows[i], df2.rows[j], NonKeyColumns(df2.columns, m2))
    ensures var w1 := Standardized(df1, m1).value; var w2 := Standardized(df2, m2).value;
      HasKeys(w1.rows[i]) && HasKeys(w2.rows[j]) && Accepts(sc, th, w1.rows[i], w2.rows[j])
  {
    var w1 := Standardized(df1, m1).value;
    var w2 := Standardized(df2, m2).value;
    ScorableWhenKeysPresent(w1, w2);
    NonKeyColumnsPresent(df2, m2);
    var nonKey := NonKeyColumns(df2.columns, m2);
    PairingInRange(sc, th, w1.rows, w2.rows, |w1.rows|);
    assert MatchAndMergeSpec(df1, df2, m1, m2, sc, th)
        == Ok(Assemble(df1, df2, nonKey, Pairing(sc, th, w1.rows, w2.rows, |w1.rows|)));
    var o := Assemble(df1, df2, nonKey, Pairing(sc, th, w1.rows, w2.rows, |w1.rows|));
    PairedRowPassesThresholds(sc, th, df1, df2, w1.rows, w2.rows, nonKey, k);
    i, j :| 0 <= i < |w1.rows| && 0 <= j < |w2.rows|
      && o.merged.rows[k] == Combined(df1.rows[i], df2.rows[j], nonKey)
      && HasKeys(w1.rows[i]) && HasKeys(w2.rows[j]) && Accepts(sc, th, w1.rows[i], w2.rows[j]);
  }

  /** `match_and_merge_two_datasets(df1, df2, col_mapping1, col_mapping2, thresholds)`. */
  method MatchAndMerge(df1: Table, df2: Table, m1: Mapping, m2: Mapping, sc: Scorers, th: Thresholds)
    returns (r: Result<Outcome, Error>)
    requires WellFormed(df1) && WellFormed(df2)
    ensures r == MatchAndMergeSpec(df1, df2, m1, m2, sc, th)
    ensures r.Ok? ==> |r.value.merged.rows| + |r.value.unmatched1.rows| == |df1.rows|
    ensures r.Ok? ==> |r.value.merged.rows| + |r.value.unmatched2.rows| == |df2.rows|
  {
    var copy1 := new Frame.Copy(df1);
    var copy2 := new Frame.Copy(df2);
    var err := StandardizeKeys(copy1, m1);
    if err.Some? {
      return Err(err.value);
    }
    err := StandardizeKeys(copy2, m2);
    if err.Some? {
      return Err(err.value);
    }
    var nonKey := NonKeyColumns(df2.columns, m2);
    var work1, work2 := copy1.rows, copy2.rows;
    if |work1| > 0 && |work2| > 0 {
      var missing := FirstMissingKey(copy1.columns, copy2.columns);
      if missing.Some? {
        return Err(KeyNotFound(missing.value));
      }
    }
    ScorableWhenKeysPresent(copy1.View(), copy2.View());
    NonKeyColumnsPresent(df2, m2);
    var matched, unmatched1, claimed := GreedyMerge(sc, th, work1, work2, df1.rows, df2.rows, nonKey);
    var unclaimed := UnclaimedIndices(|df2.rows|, claimed);
    r := Ok(Outcome(Table(MergedColumns(df1.columns, nonKey, |matched|), matched),
                    Table(UnmatchedColumns(df1.columns, |unmatched1|), unmatched1),
                    Table(df2.columns, SelectRows(df2.rows, unclaimed))));
    OutcomePartitions(df1, df2, m1, m2, sc, th);
  }
}
