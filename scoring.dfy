/**
 * The similarity library seen from outside: a scorer is any function from two
 * strings to a score in [0, 100] (fuzz.ratio, fuzz.token_set_ratio, or either
 * one behind a preprocessing step), and `process.extractOne` picks the first
 * choice with the highest score.
 */
module Scoring {
  import opened Wrappers

  type Score = r: real | 0.0 <= r <= 100.0

  type Scorer = (string, string) -> Score

  /** What `extractOne` returns: the choice, its score and its position. */
  datatype Match = Match(choice: string, score: Score, index: nat)

  /** The best match found so far, scanning `choices` from position `from` on. */
  function BestFrom(query: string, choices: seq<string>, scorer: Scorer, from: nat, best: Match): (r: Match)
    requires from <= |choices| && best.index < from
    requires best.choice == choices[best.index] && best.score == scorer(query, best.choice)
    requires forall k :: 0 <= k < from ==> scorer(query, choices[k]) <= best.score
    requires forall k :: 0 <= k < best.index ==> scorer(query, choices[k]) < best.score
    ensures r.index < |choices| && r.choice == choices[r.index]
    ensures r.score == scorer(query, r.choice)
    ensures forall k :: 0 <= k < |choices| ==> scorer(query, choices[k]) <= r.score
    ensures forall k :: 0 <= k < r.index ==> scorer(query, choices[k]) < r.score
    decreases |choices| - from
  {
    if from == |choices| then best
    else
      var s := scorer(query, choices[from]);
      if s > best.score then BestFrom(query, choices, scorer, from + 1, Match(choices[from], s, from))
      else BestFrom(query, choices, scorer, from + 1, best)
  }

  /**
   * `process.extractOne(query, choices, scorer=scorer)`: None for no choices,
   * otherwise the first choice whose score no other choice exceeds.
   */
  function ExtractOne(query: string, choices: seq<string>, scorer: Scorer): (r: Option<Match>)
    ensures r.None? <==> |choices| == 0
    ensures r.Some? ==> r.value.index < |choices| && r.value.choice == choices[r.value.index]
    ensures r.Some? ==> r.value.score == scorer(query, r.value.choice)
    ensures r.Some? ==> forall k :: 0 <= k < |choices| ==> scorer(query, choices[k]) <= r.value.score
    ensures r.Some? ==> forall k :: 0 <= k < r.value.index ==> scorer(query, choices[k]) < r.value.score
  {
    if |choices| == 0 then None
    else Some(BestFrom(query, choices, scorer, 1, Match(choices[0], scorer(query, choices[0]), 0)))
  }
}
