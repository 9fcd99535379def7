/**
 * The pairing the matching loop computes: A rows are taken in order, and each
 * claims the first B row, in B order, that no earlier A row claimed and that
 * passes all three key thresholds.
 */
module GreedyMatch {
  import opened Wrappers
  import opened Tables
  import opened Scoring

  /** The caller's three minimum scores, one per canonical key. */
  datatype Thresholds = Thresholds(region: int, zone: int, woreda: int)

  /** `fuzz.ratio` for region and zone, `fuzz.token_set_ratio` for woreda. */
  datatype Scorers = Scorers(ratio: Scorer, tokenSetRatio: Scorer)

  predicate HasKeys(row: Row)
  {
    Region in row && Zone in row && Woreda in row
  }

  /**
   * Every pair the loop can score has the three keys: the loop looks the keys
   * up only when both sides have a row.
   */
  predicate Scorable(a: seq<Row>, b: seq<Row>)
  {
    |a| > 0 && |b| > 0 ==>
      (forall i :: 0 <= i < |a| ==> HasKeys(a[i])) && (forall j :: 0 <= j < |b| ==> HasKeys(b[j]))
  }

  function RegionScore(sc: Scorers, x: Row, y: Row): Score
    requires HasKeys(x) && HasKeys(y)
  {
    sc.ratio(Str(x[Region]), Str(y[Region]))
  }

  function ZoneScore(sc: Scorers, x: Row, y: Row): Score
    requires HasKeys(x) && HasKeys(y)
  {
    sc.ratio(Str(x[Zone]), Str(y[Zone]))
  }

  function WoredaScore(sc: Scorers, x: Row, y: Row): Score
    requires HasKeys(x) && HasKeys(y)
  {
    sc.tokenSetRatio(Str(x[Woreda]), Str(y[Woreda]))
  }

  /** The acceptance test: every one of the three scores reaches its threshold. */
  predicate Accepts(sc: Scorers, th: Thresholds, x: Row, y: Row)
    requires HasKeys(x) && HasKeys(y)
  {
    RegionScore(sc, x, y) >= th.region as real
    && ZoneScore(sc, x, y) >= th.zone as real
    && WoredaScore(sc, x, y) >= th.woreda as real
  }

  /** The first B position at or after `from`, not in `claimed`, that accepts `x`. */
  function FirstFit(sc: Scorers, th: Thresholds, x: Row, b: seq<Row>, claimed: set<nat>, from: nat): Option<nat>
    requires |b| > 0 ==> HasKeys(x)
    requires forall j :: 0 <= j < |b| ==> HasKeys(b[j])
    decreases |b| - from
  {
    if from >= |b| then None
    else if from !in claimed && Accepts(sc, th, x, b[from]) then Some(from)
    else FirstFit(sc, th, x, b, claimed, from + 1)
  }

  /**
   * FirstFit finds position `j` exactly when `j` is unclaimed and accepts `x`
   * and no unclaimed position from `from` up to `j` does; it finds nothing
   * exactly when no unclaimed position from `from` on accepts `x`.
   */
  lemma {:induction false} FirstFitIsFirst(sc: Scorers, th: Thresholds, x: Row, b: seq<Row>, claimed: set<nat>, from: nat)
    requires |b| > 0 ==> HasKeys(x)
    requires forall j :: 0 <= j < |b| ==> HasKeys(b[j])
    ensures var r := FirstFit(sc, th, x, b, claimed, from);
      r.Some? ==> from <= r.value < |b| && r.value !in claimed && Accepts(sc, th, x, b[r.value])
    ensures var r := FirstFit(sc, th, x, b, claimed, from);
      r.Some? ==> forall k :: from <= k < r.value && k !in claimed ==> !Accepts(sc, th, x, b[k])
    ensures var r := FirstFit(sc, th, x, b, claimed, from);
      r.None? ==> forall k :: from <= k < |b| && k !in claimed ==> !Accepts(sc, th, x, b[k])
    decreases |b| - from
  {
    if from < |b| && !(from !in claimed && Accepts(sc, th, x, b[from])) {
      FirstFitIsFirst(sc, th, x, b, claimed, from + 1);
    }
  }

  /** The B positions a pairing has claimed. */
  function Claimed(p: seq<Option<nat>>): set<nat>
  {
    if p == [] then {}
    else Claimed(p[..|p| - 1]) + (if p[|p| - 1].Some? then {p[|p| - 1].value} else {})
  }

  /** A position is claimed exactly when some entry of the pairing holds it. */
  lemma {:induction false} ClaimedHolds(p: seq<Option<nat>>, j: nat)
    ensures j in Claimed(p) <==> exists i :: 0 <= i < |p| && p[i] == Some(j)
  {
    if p != [] {
      var init := p[..|p| - 1];
      ClaimedHolds(init, j);
      if j in Claimed(init) {
        var i :| 0 <= i < |init| && init[i] == Some(j);
        assert p[i] == Some(j);
      }
      if i :| 0 <= i < |p| - 1 && p[i] == Some(j) {
        assert init[i] == Some(j);
      }
    }
  }

  /** How many entries of a pairing are matched. */
  function CountMatched(p: seq<Option<nat>>): (n: nat)
    ensures n <= |p|
  {
    if p == [] then 0
    else CountMatched(p[..|p| - 1]) + (if p[|p| - 1].Some? then 1 else 0)
  }

  /** One more entry claims its position, if any, and counts once if matched. */
  lemma ClaimedSnoc(p: seq<Option<nat>>, x: Option<nat>)
    ensures Claimed(p + [x]) == Claimed(p) + (if x.Some? then {x.value} else {})
    ensures CountMatched(p + [x]) == CountMatched(p) + (if x.Some? then 1 else 0)
  {
    assert (p + [x])[..|p|] == p;
  }

  /** Every claimed position is a position of `b`. */
  predicate InRange(p: seq<Option<nat>>, size: nat)
  {
    forall i :: 0 <= i < |p| && p[i].Some? ==> p[i].value < size
  }

  /**
   * The outcome of the first `n` turns: entry `i` is the B position claimed
   * by A row `i`, or None when A row `i` found no partner.
   */
  function Pairing(sc: Scorers, th: Thresholds, a: seq<Row>, b: seq<Row>, n: nat): (p: seq<Option<nat>>)
    requires n <= |a| && Scorable(a, b)
    ensures |p| == n
  {
    if n == 0 then []
    else
      var prev := Pairing(sc, th, a, b, n - 1);
      prev + [FirstFit(sc, th, a[n - 1], b, Claimed(prev), 0)]
  }

  /** Every claimed position is a position of B. */
  lemma {:induction false} PairingInRange(sc: Scorers, th: Thresholds, a: seq<Row>, b: seq<Row>, n: nat)
    requires n <= |a| && Scorable(a, b)
    ensures InRange(Pairing(sc, th, a, b, n), |b|)
  {
    if n > 0 {
      PairingInRange(sc, th, a, b, n - 1);
      var prev := Pairing(sc, th, a, b, n - 1);
      var p := Pairing(sc, th, a, b, n);
      forall i | 0 <= i < n - 1 && p[i].Some? ensures p[i].value < |b| {
        assert p[i] == prev[i];
      }
      FirstFitIsFirst(sc, th, a[n - 1], b, Claimed(prev), 0);
    }
  }

  /** A run of `n` turns extends the run of `n - 1` turns by one decision. */
  lemma PairingInit(sc: Scorers, th: Thresholds, a: seq<Row>, b: seq<Row>, n: nat)
    requires 0 < n <= |a| && Scorable(a, b)
    ensures Pairing(sc, th, a, b, n)[..n - 1] == Pairing(sc, th, a, b, n - 1)
  {
    var prev := Pairing(sc, th, a, b, n - 1);
    assert Pairing(sc, th, a, b, n) == prev + [FirstFit(sc, th, a[n - 1], b, Claimed(prev), 0)];
  }

  lemma TakeOfTake<T>(s: seq<T>, j: nat, i: nat)
    requires i <= j <= |s|
    ensures s[..j][..i] == s[..i]
  {
  }

  /** A shorter run is a prefix of a longer one. */
  lemma {:induction false} PairingPrefix(sc: Scorers, th: Thresholds, a: seq<Row>, b: seq<Row>, n: nat, i: nat)
    requires i <= n <= |a| && Scorable(a, b)
    ensures Pairing(sc, th, a, b, n)[..i] == Pairing(sc, th, a, b, i)
  {
    var p := Pairing(sc, th, a, b, n);
    if i < n {
      PairingInit(sc, th, a, b, n);
      PairingPrefix(sc, th, a, b, n - 1, i);
      TakeOfTake(p, n - 1, i);
    } else {
      assert p[..n] == p;
    }
  }

  /** Turn `i` of a longer run: what A row `i` claims, and the claimed set after it. */
  lemma PairingTurn(sc: Scorers, th: Thresholds, a: seq<Row>, b: seq<Row>, n: nat, i: nat)
    requires i < n <= |a| && Scorable(a, b)
    ensures |b| > 0 ==> HasKeys(a[i])
    ensures Pairing(sc, th, a, b, n)[i] == FirstFit(sc, th, a[i], b, Claimed(Pairing(sc, th, a, b, i)), 0)
    ensures var x := Pairing(sc, th, a, b, n)[i];
      Claimed(Pairing(sc, th, a, b, i + 1))
      == Claimed(Pairing(sc, th, a, b, i)) + (if x.Some? then {x.value} else {})
  {
    PairingPrefix(sc, th, a, b, n, i + 1);
    var prev := Pairing(sc, th, a, b, i);
    var x := FirstFit(sc, th, a[i], b, Claimed(prev), 0);
    var next := Pairing(sc, th, a, b, i + 1);
    assert next == prev + [x];
    assert Pairing(sc, th, a, b, n)[i] == next[i];
    assert next[..|next| - 1] == prev;
  }

  /**
   * First fit. A row `i` is paired with B row `j` exactly when `j` was
   * unclaimed at its turn, passes the three thresholds, and every unclaimed B
   * row before `j` fails them; it is left unmatched exactly when every B row
   * unclaimed at its turn fails them.
   */
  lemma PairingIsFirstFit(sc: Scorers, th: Thresholds, a: seq<Row>, b: seq<Row>, n: nat, i: nat)
    requires i < n <= |a| && Scorable(a, b)
    ensures |b| > 0 ==> HasKeys(a[i])
    ensures var p := Pairing(sc, th, a, b, n); var before := Claimed(p[..i]);
      p[i].Some? ==>
        p[i].value < |b| && p[i].value !in before && Accepts(sc, th, a[i], b[p[i].value])
        && forall k :: 0 <= k < p[i].value && k !in before ==> !Accepts(sc, th, a[i], b[k])
    ensures var p := Pairing(sc, th, a, b, n); var before := Claimed(p[..i]);
      p[i].None? ==> forall k :: 0 <= k < |b| && k !in before ==> !Accepts(sc, th, a[i], b[k])
  {
    PairingTurn(sc, th, a, b, n, i);
    PairingPrefix(sc, th, a, b, n, i);
    FirstFitIsFirst(sc, th, a[i], b, Claimed(Pairing(sc, th, a, b, i)), 0);
  }

  /** The AND rule: a paired A row and B row pass every one of the three thresholds. */
  lemma PairsPassAllThresholds(sc: Scorers, th: Thresholds, a: seq<Row>, b: seq<Row>, n: nat, i: nat)
    requires i < n <= |a| && Scorable(a, b)
    requires Pairing(sc, th, a, b, n)[i].Some?
    ensures var j := Pairing(sc, th, a, b, n)[i].value;
      j < |b| && HasKeys(a[i]) && HasKeys(b[j])
      && RegionScore(sc, a[i], b[j]) >= th.region as real
      && ZoneScore(sc, a[i], b[j]) >= th.zone as real
      && WoredaScore(sc, a[i], b[j]) >= th.woreda as real
  {
    PairingIsFirstFit(sc, th, a, b, n, i);
  }

  /** No two entries hold the same position. */
  predicate Injective(p: seq<Option<nat>>)
  {
    forall i, k :: 0 <= i < k < |p| && p[i].Some? && p[k].Some? ==> p[i].value != p[k].value
  }

  /** No B row is claimed twice: the pairing is injective. */
  lemma {:induction false} PairingInjective(sc: Scorers, th: Thresholds, a: seq<Row>, b: seq<Row>, n: nat)
    requires n <= |a| && Scorable(a, b)
    ensures Injective(Pairing(sc, th, a, b, n))
  {
    if n > 0 {
      PairingInjective(sc, th, a, b, n - 1);
      var prev := Pairing(sc, th, a, b, n - 1);
      var x := FirstFit(sc, th, a[n - 1], b, Claimed(prev), 0);
      var p := Pairing(sc, th, a, b, n);
      assert p == prev + [x];
      FirstFitIsFirst(sc, th, a[n - 1], b, Claimed(prev), 0);
      forall i, k | 0 <= i < k < n && p[i].Some? && p[k].Some?
        ensures p[i].value != p[k].value
      {
        assert p[i] == prev[i];
        if k == n - 1 {
          assert p[k] == x && prev[i] == Some(p[i].value);
          ClaimedHolds(prev, p[i].value);
        } else {
          assert p[k] == prev[k];
        }
      }
    }
  }

  /** In an injective pairing every matched entry adds a new position, so the claimed set counts the matches. */
  lemma {:induction false} InjectiveClaimedCount(p: seq<Option<nat>>)
    requires Injective(p)
    ensures |Claimed(p)| == CountMatched(p)
  {
    if p != [] {
      var init := p[..|p| - 1];
      var x := p[|p| - 1];
      assert p == init + [x];
      InjectiveClaimedCount(init);
      ClaimedSnoc(init, x);
      if x.Some? {
        ClaimedHolds(init, x.value);
        forall i | 0 <= i < |init| ensures init[i] != x {
          assert init[i] == p[i];
        }
      }
    }
  }

  /** The claimed positions of a pairing within range lie within range. */
  lemma ClaimedInRange(p: seq<Option<nat>>, size: nat)
    requires InRange(p, size)
    ensures forall j :: j in Claimed(p) ==> j < size
  {
    forall j | j in Claimed(p) ensures j < size {
      ClaimedHolds(p, j);
    }
  }

  /**
   * Each matched A row claims a distinct B row, so the claimed set is as large
   * as the number of matched A rows, and it lies within B.
   */
  lemma ClaimedCount(sc: Scorers, th: Thresholds, a: seq<Row>, b: seq<Row>, n: nat)
    requires n <= |a| && Scorable(a, b)
    ensures var p := Pairing(sc, th, a, b, n);
      |Claimed(p)| == CountMatched(p) && forall j :: j in Claimed(p) ==> j < |b|
  {
    PairingInjective(sc, th, a, b, n);
    PairingInRange(sc, th, a, b, n);
    InjectiveClaimedCount(Pairing(sc, th, a, b, n));
    ClaimedInRange(Pairing(sc, th, a, b, n), |b|);
  }
}
