/**
 * The data the two algorithms work on: cells, rows keyed by column label,
 * tables with an ordered label list, and the insertion-ordered dictionary
 * that maps a canonical key name to a table's own column label.
 */
module Tables {
  import opened Wrappers

  /** The three canonical key names and the list of them the resolver is given. */
  const Region: string := "region"
  const Zone: string := "zone"
  const Woreda: string := "woreda"
  const RequiredKeyColumns: seq<string> := [Region, Zone, Woreda]

  /**
   * A cell: text, or any other value (a number, a missing value) carried with
   * the text that `str()` and `astype(str)` give for it.
   */
  datatype Cell = Text(text: string) | NonText(rendered: string)

  /** `str(v)`. */
  function Str(v: Cell): string
  {
    match v
    case Text(s) => s
    case NonText(r) => r
  }

  /** A row as `DataFrame.iloc[i].to_dict()` gives it. */
  type Row = map<string, Cell>

  /** A data frame with a positional (range) index: row `i` has label `i`. */
  datatype Table = Table(columns: seq<string>, rows: seq<Row>)

  predicate Distinct<T(==)>(s: seq<T>)
  {
    forall i, j :: 0 <= i < j < |s| ==> s[i] != s[j]
  }

  lemma DistinctCons<T>(x: T, s: seq<T>)
    ensures Distinct([x] + s) <==> x !in s && Distinct(s)
  {
    var t := [x] + s;
    if x !in s && Distinct(s) {
      forall i, j | 0 <= i < j < |t| ensures t[i] != t[j] {
        if i > 0 { assert t[i] == s[i - 1] && t[j] == s[j - 1]; }
        else { assert t[j] == s[j - 1]; }
      }
    }
    if Distinct(t) {
      forall i, j | 0 <= i < j < |s| ensures s[i] != s[j] {
        assert s[i] == t[i + 1] && s[j] == t[j + 1];
      }
      forall k | 0 <= k < |s| ensures s[k] != x {
        assert t[0] != t[k + 1];
      }
    }
  }

  lemma DistinctConcat<T>(s: seq<T>, t: seq<T>)
    requires Distinct(s) && Distinct(t)
    requires forall x :: x in s ==> x !in t
    ensures Distinct(s + t)
  {
    var u := s + t;
    forall i, j | 0 <= i < j < |u| ensures u[i] != u[j] {
      if j < |s| { assert u[i] == s[i] && u[j] == s[j]; }
      else if i >= |s| { assert u[i] == t[i - |s|] && u[j] == t[j - |s|]; }
      else { assert u[i] == s[i] && s[i] in s && u[j] == t[j - |s|]; }
    }
  }

  /** The labels of `s` not in `excluded`, in their order in `s`. */
  function Without(s: seq<string>, excluded: set<string>): (r: seq<string>)
    ensures forall c :: c in r <==> c in s && c !in excluded
    ensures Distinct(s) ==> Distinct(r)
  {
    if s == [] then []
    else
      var rest := Without(s[1..], excluded);
      DistinctCons(s[0], s[1..]);
      assert s == [s[0]] + s[1..];
      if s[0] in excluded then rest
      else
        DistinctCons(s[0], rest);
        [s[0]] + rest
  }

  /** Every row holds exactly the table's column labels. */
  predicate RowsMatch(columns: seq<string>, rows: seq<Row>)
  {
    forall i :: 0 <= i < |rows| ==> rows[i].Keys == set c | c in columns
  }

  /** A table as a loader produces it: unique column labels, every row complete. */
  predicate WellFormed(t: Table)
  {
    Distinct(t.columns) && RowsMatch(t.columns, t.rows)
  }

  /** A Python `dict` from str to str, its entries in insertion order. */
  type Mapping = seq<(string, string)>

  function KeysOf(m: Mapping): seq<string>
  {
    seq(|m|, k requires 0 <= k < |m| => m[k].0)
  }

  /** `m.values()` as a set. */
  function Values(m: Mapping): set<string>
  {
    set k | 0 <= k < |m| :: m[k].1
  }

  lemma KeysOfCons(m: Mapping)
    requires m != []
    ensures KeysOf(m) == [m[0].0] + KeysOf(m[1..])
  {
  }

  /** Dropping the last entry drops its key and keeps only values the mapping had. */
  lemma MappingInit(m: Mapping)
    requires m != []
    ensures KeysOf(m[..|m| - 1]) + [m[|m| - 1].0] == KeysOf(m)
    ensures Values(m[..|m| - 1]) <= Values(m) && m[|m| - 1].1 in Values(m)
  {
    var init := m[..|m| - 1];
    forall v | v in Values(init) ensures v in Values(m) {
      var k :| 0 <= k < |init| && init[k].1 == v;
      assert m[k].1 == v;
    }
  }

  /** `m.get(key)`. */
  function Get(m: Mapping, key: string): (r: Option<string>)
    ensures r.None? <==> key !in KeysOf(m)
    ensures r.Some? ==> (key, r.value) in m && r.value in Values(m)
  {
    if m == [] then None
    else
      KeysOfCons(m);
      if m[0].0 == key then
        assert m[0] == (key, m[0].1);
        Some(m[0].1)
      else
        var r := Get(m[1..], key);
        assert r.Some? ==> r.value in Values(m) by {
          if r.Some? {
            var k :| 0 <= k < |m[1..]| && m[1..][k] == (key, r.value);
            assert m[k + 1].1 == r.value;
          }
        }
        r
  }

  /** `m[key] = value`: an existing entry keeps its place, a new one goes last. */
  function Put(m: Mapping, key: string, value: string): (r: Mapping)
    requires Distinct(KeysOf(m))
    ensures Distinct(KeysOf(r))
    ensures Get(r, key) == Some(value)
    ensures forall k :: k != key ==> Get(r, k) == Get(m, k)
    ensures key !in KeysOf(m) ==> KeysOf(r) == KeysOf(m) + [key]
    ensures key in KeysOf(m) ==> KeysOf(r) == KeysOf(m)
  {
    if m == [] then [(key, value)]
    else
      KeysOfCons(m);
      if m[0].0 == key then
        var r := [(key, value)] + m[1..];
        KeysOfCons(r);
        assert r[1..] == m[1..];
        DistinctCons(key, KeysOf(m[1..]));
        r
      else
        DistinctCons(m[0].0, KeysOf(m[1..]));
        var rest := Put(m[1..], key, value);
        var r := [m[0]] + rest;
        KeysOfCons(r);
        assert r[1..] == rest;
        DistinctCons(m[0].0, KeysOf(rest));
        r
  }

  /** In a mapping with distinct keys, looking up an entry's key finds that entry's value. */
  lemma {:induction false} GetOfEntry(m: Mapping, i: nat)
    requires Distinct(KeysOf(m)) && i < |m|
    ensures Get(m, m[i].0) == Some(m[i].1)
  {
    KeysOfCons(m);
    if i > 0 {
      assert KeysOf(m)[0] != KeysOf(m)[i];
      DistinctCons(m[0].0, KeysOf(m[1..]));
      GetOfEntry(m[1..], i - 1);
    }
  }
}
