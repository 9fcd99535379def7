/**
 * `map_columns` in app.py: each required key is compared with every column
 * name, stripped and lower-cased, and mapped to the column whose normalised
 * name scores best, provided that score reaches 85; keys that do not get
 * that far are reported missing.
 */
module ColumnResolver {
  import opened Wrappers
  import opened TextNorm
  import opened Tables
  import opened Scoring

  /** The fixed acceptance score for column names. */
  const ColumnNameThreshold: real := 85.0

  /** `[col.strip().lower() for col in df.columns]`. */
  function NormalizedColumns(columns: seq<string>): (r: seq<string>)
    ensures |r| == |columns|
    ensures forall k :: 0 <= k < |columns| ==> r[k] == Normalize(columns[k]) && IsNormal(r[k])
  {
    seq(|columns|, k requires 0 <= k < |columns| => NormalizeIsNormal(columns[k]); Normalize(columns[k]))
  }

  /** `s.index(x)`: the first position holding `x`. */
  function IndexOf(s: seq<string>, x: string): (r: nat)
    requires x in s
    ensures r < |s| && s[r] == x
    ensures forall k :: 0 <= k < r ==> s[k] != x
  {
    if s[0] == x then 0 else 1 + IndexOf(s[1..], x)
  }

  /** What one iteration of the per-key loop decides for `key`: the column it maps to, or none. */
  function Resolve(columns: seq<string>, key: string, ratio: Scorer): (r: Option<string>)
    ensures r.Some? ==> r.value in columns
  {
    var normalized := NormalizedColumns(columns);
    match ExtractOne(key, normalized, ratio)
    case None => None
    case Some(best) =>
      if best.score >= ColumnNameThreshold then Some(columns[IndexOf(normalized, best.choice)]) else None
  }

  /** The first position holding the best choice is the position `extractOne` reports. */
  lemma IndexOfBest(columns: seq<string>, key: string, ratio: Scorer)
    requires |columns| > 0
    ensures var normalized := NormalizedColumns(columns); var best := ExtractOne(key, normalized, ratio).value;
      IndexOf(normalized, best.choice) == best.index
  {
  }

  /** A key is mapped exactly when some column's normalised name scores at least 85 against it. */
  lemma ResolvedIff(columns: seq<string>, key: string, ratio: Scorer)
    ensures Resolve(columns, key, ratio).Some?
            <==> exists k :: 0 <= k < |columns| && ratio(key, Normalize(columns[k])) >= ColumnNameThreshold
  {
    var normalized := NormalizedColumns(columns);
    if |columns| > 0 {
      var best := ExtractOne(key, normalized, ratio).value;
      if best.score >= ColumnNameThreshold {
        assert ratio(key, Normalize(columns[best.index])) >= ColumnNameThreshold;
      } else {
        forall k | 0 <= k < |columns| ensures ratio(key, Normalize(columns[k])) < ColumnNameThreshold {
          assert ratio(key, normalized[k]) <= best.score;
        }
      }
    }
  }

  /**
   * The mapped column is, in the original order, the first column whose
   * normalised name attains the best score, and that score is at least 85.
   */
  lemma ResolvedIsFirstBest(columns: seq<string>, key: string, ratio: Scorer) returns (i: nat)
    requires Resolve(columns, key, ratio).Some?
    ensures i < |columns| && Resolve(columns, key, ratio).value == columns[i]
    ensures ratio(key, Normalize(columns[i])) >= ColumnNameThreshold
    ensures forall k :: 0 <= k < |columns| ==> ratio(key, Normalize(columns[k])) <= ratio(key, Normalize(columns[i]))
    ensures forall k :: 0 <= k < i ==> ratio(key, Normalize(columns[k])) < ratio(key, Normalize(columns[i]))
  {
    var normalized := NormalizedColumns(columns);
    IndexOfBest(columns, key, ratio);
    i := ExtractOne(key, normalized, ratio).value.index;
    forall k | 0 <= k < |columns| ensures ratio(key, Normalize(columns[k])) <= ratio(key, Normalize(columns[i])) {
      assert normalized[k] == Normalize(columns[k]);
    }
    forall k | 0 <= k < i ensures ratio(key, Normalize(columns[k])) < ratio(key, Normalize(columns[i])) {
      assert normalized[k] == Normalize(columns[k]);
    }
  }

  /**
   * A column whose name normalises to the key itself is always good enough,
   * for a scorer that gives identical strings 100, as `fuzz.ratio` does.
   */
  lemma ExactNameResolves(columns: seq<string>, key: string, ratio: Scorer, i: nat)
    requires i < |columns| && Normalize(columns[i]) == key && ratio(key, key) == 100.0
    ensures Resolve(columns, key, ratio).Some?
    ensures ratio(key, Normalize(Resolve(columns, key, ratio).value)) == 100.0
  {
    ResolvedIff(columns, key, ratio);
    var j := ResolvedIsFirstBest(columns, key, ratio);
    assert ratio(key, Normalize(columns[i])) <= ratio(key, Normalize(columns[j]));
  }

  /** `col_mapping` after the loop has seen `required`. */
  function MappingFor(columns: seq<string>, required: seq<string>, ratio: Scorer): (r: Mapping)
    ensures Distinct(KeysOf(r))
  {
    if required == [] then []
    else
      var key := required[|required| - 1];
      var m := MappingFor(columns, required[..|required| - 1], ratio);
      match Resolve(columns, key, ratio)
      case Some(c) => Put(m, key, c)
      case None => m
  }

  /** `missing_cols` after the loop has seen `required`. */
  function MissingFor(columns: seq<string>, required: seq<string>, ratio: Scorer): (r: seq<string>)
    ensures |r| <= |required|
  {
    if required == [] then []
    else
      var key := required[|required| - 1];
      MissingFor(columns, required[..|required| - 1], ratio)
      + (if Resolve(columns, key, ratio).None? then [key] else [])
  }

  /** `map_columns(df, required_cols)`. */
  method MapColumns(columns: seq<string>, required: seq<string>, ratio: Scorer)
    returns (mapping: Mapping, missing: seq<string>)
    ensures mapping == MappingFor(columns, required, ratio) && missing == MissingFor(columns, required, ratio)
    ensures forall key :: key in required ==> Get(mapping, key) == Resolve(columns, key, ratio)
    ensures forall key :: key in missing <==> key in required && Resolve(columns, key, ratio).None?
  {
    var normalized := NormalizedColumns(columns);
    mapping, missing := [], [];
    for k := 0 to |required|
      invariant mapping == MappingFor(columns, required[..k], ratio)
      invariant missing == MissingFor(columns, required[..k], ratio)
    {
      var key := required[k];
      assert required[..k + 1][..k] == required[..k];
      var best := ExtractOne(key, normalized, ratio);
      if best.Some? && best.value.score >= ColumnNameThreshold {
        var matched := columns[IndexOf(normalized, best.value.choice)];
        assert Resolve(columns, key, ratio) == Some(matched);
        mapping := Put(mapping, key, matched);
      } else {
        assert Resolve(columns, key, ratio).None?;
        missing := missing + [key];
      }
    }
    assert required[..|required|] == required;
    MappingForGet(columns, required, ratio);
    MissingForMembers(columns, required, ratio);
  }

  /** Looking a key up in the mapping gives its resolution, for required keys, and nothing otherwise. */
  lemma {:induction false} MappingForGet(columns: seq<string>, required: seq<string>, ratio: Scorer)
    ensures forall key :: Get(MappingFor(columns, required, ratio), key)
                          == if key in required then Resolve(columns, key, ratio) else None
  {
    if required != [] {
      var prefix := required[..|required| - 1];
      var last := required[|required| - 1];
      MappingForGet(columns, prefix, ratio);
      assert required == prefix + [last];
      var m := MappingFor(columns, prefix, ratio);
      var r := MappingFor(columns, required, ratio);
      assert r == match Resolve(columns, last, ratio) case Some(c) => Put(m, last, c) case None => m;
      forall key ensures Get(r, key) == if key in required then Resolve(columns, key, ratio) else None {
        assert key in required <==> key in prefix || key == last;
      }
    }
  }

  /** A key is missing exactly when it is required and unresolved. */
  lemma {:induction false} MissingForMembers(columns: seq<string>, required: seq<string>, ratio: Scorer)
    ensures forall key :: key in MissingFor(columns, required, ratio)
                          <==> key in required && Resolve(columns, key, ratio).None?
  {
    if required != [] {
      var prefix := required[..|required| - 1];
      MissingForMembers(columns, prefix, ratio);
      assert required == prefix + [required[|required| - 1]];
    }
  }

  /** The positions of `required` whose keys go to `missing_cols`, in increasing order. */
  function MissingPositions(columns: seq<string>, required: seq<string>, ratio: Scorer): (idx: seq<nat>)
    ensures forall k :: 0 <= k < |idx| ==> idx[k] < |required|
    ensures forall a, b :: 0 <= a < b < |idx| ==> idx[a] < idx[b]
  {
    if required == [] then []
    else
      var n := |required|;
      MissingPositions(columns, required[..n - 1], ratio)
      + (if Resolve(columns, required[n - 1], ratio).None? then [n - 1] else [])
  }

  /**
   * `missing_cols` keeps the order of `required_cols`: entry `k` is the
   * unresolved key at the `k`-th of the increasing missing positions.
   */
  lemma {:induction false} MissingInOrder(columns: seq<string>, required: seq<string>, ratio: Scorer)
    ensures var idx := MissingPositions(columns, required, ratio);
      |idx| == |MissingFor(columns, required, ratio)|
      && forall k :: 0 <= k < |idx| ==>
           MissingFor(columns, required, ratio)[k] == required[idx[k]]
           && Resolve(columns, required[idx[k]], ratio).None?
  {
    if required != [] {
      var n := |required|;
      var prefix := required[..n - 1];
      MissingInOrder(columns, prefix, ratio);
      var idx0 := MissingPositions(columns, prefix, ratio);
      var idx := MissingPositions(columns, required, ratio);
      var r0 := MissingFor(columns, prefix, ratio);
      var r := MissingFor(columns, required, ratio);
      forall k | 0 <= k < |idx0|
        ensures idx[k] == idx0[k] && r[k] == r0[k] && prefix[idx0[k]] == required[idx0[k]]
      {
      }
    }
  }

  /** Every unresolved position of `required` is a missing position. */
  lemma {:induction false} MissingPositionsComplete(columns: seq<string>, required: seq<string>, ratio: Scorer, i: nat)
    requires i < |required| && Resolve(columns, required[i], ratio).None?
    ensures i in MissingPositions(columns, required, ratio)
  {
    var n := |required|;
    var prefix := required[..n - 1];
    if i < n - 1 {
      assert prefix[i] == required[i];
      MissingPositionsComplete(columns, prefix, ratio, i);
    }
  }

  /** Each required key ends up in exactly one of `col_mapping` and `missing_cols`, and no other key does. */
  lemma KeysPartition(columns: seq<string>, required: seq<string>, ratio: Scorer, key: string)
    ensures key in required ==>
      (key in KeysOf(MappingFor(columns, required, ratio)) <==> key !in MissingFor(columns, required, ratio))
    ensures key !in required ==>
      key !in KeysOf(MappingFor(columns, required, ratio)) && key !in MissingFor(columns, required, ratio)
  {
    MappingForGet(columns, required, ratio);
    MissingForMembers(columns, required, ratio);
  }

  /** Every mapped value is an existing column. */
  lemma MappedValuesAreColumns(columns: seq<string>, required: seq<string>, ratio: Scorer)
    ensures forall v :: v in Values(MappingFor(columns, required, ratio)) ==> v in columns
  {
    var m := MappingFor(columns, required, ratio);
    MappingForGet(columns, required, ratio);
    forall v | v in Values(m) ensures v in columns {
      var i :| 0 <= i < |m| && m[i].1 == v;
      GetOfEntry(m, i);
    }
  }

  /** The required keys that resolve, in the order of `required`. */
  function ResolvedKeys(columns: seq<string>, required: seq<string>, ratio: Scorer): seq<string>
  {
    if required == [] then []
    else
      var key := required[|required| - 1];
      ResolvedKeys(columns, required[..|required| - 1], ratio)
      + (if Resolve(columns, key, ratio).Some? then [key] else [])
  }

  /**
   * For distinct required keys, the mapping's keys are the resolved keys in
   * order, and together with the missing keys they account for every key once.
   */
  lemma {:induction false} MappingKeysInOrder(columns: seq<string>, required: seq<string>, ratio: Scorer)
    requires Distinct(required)
    ensures KeysOf(MappingFor(columns, required, ratio)) == ResolvedKeys(columns, required, ratio)
    ensures |KeysOf(MappingFor(columns, required, ratio))| + |MissingFor(columns, required, ratio)| == |required|
  {
    if required != [] {
      var prefix := required[..|required| - 1];
      var key := required[|required| - 1];
      assert required == prefix + [key];
      assert Distinct(prefix) && key !in prefix by {
        forall i | 0 <= i < |prefix| ensures prefix[i] != key {
          assert required[i] != required[|required| - 1];
        }
      }
      MappingKeysInOrder(columns, prefix, ratio);
      MappingForGet(columns, prefix, ratio);
      var m := MappingFor(columns, prefix, ratio);
      assert key !in KeysOf(m) by {
        assert Get(m, key) == None;
      }
      assert MappingFor(columns, required, ratio)
          == match Resolve(columns, key, ratio) case Some(c) => Put(m, key, c) case None => m;
      assert MissingFor(columns, required, ratio)
          == MissingFor(columns, prefix, ratio) + (if Resolve(columns, key, ratio).None? then [key] else []);
      assert ResolvedKeys(columns, required, ratio)
          == ResolvedKeys(columns, prefix, ratio) + (if Resolve(columns, key, ratio).Some? then [key] else []);
    }
  }

  /**
   * Keys are resolved independently: one column can be the mapping of
   * several required keys, so the mapping need not be injective.
   */
  lemma SharedColumnExample()
    ensures var m := MappingFor(["Name"], RequiredKeyColumns, (a: string, b: string) => 100.0);
      Get(m, Region) == Some("Name") && Get(m, Zone) == Some("Name") && Get(m, Woreda) == Some("Name")
  {
    var ratio: Scorer := (a: string, b: string) => 100.0;
    var columns := ["Name"];
    forall key | key in RequiredKeyColumns ensures Resolve(columns, key, ratio) == Some("Name") {
      assert ratio(key, Normalize(columns[0])) >= ColumnNameThreshold;
      ResolvedIff(columns, key, ratio);
      var i := ResolvedIsFirstBest(columns, key, ratio);
    }
    MappingForGet(columns, RequiredKeyColumns, ratio);
  }
}
