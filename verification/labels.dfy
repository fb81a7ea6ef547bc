/** Turning the model's score vector into a class label: numpy's `argmax`
    (first index of the largest score) looked up in the fixed table of class
    names. Scores are reals; the vector is the flattened model output. */
module LabelSelection {

  /** The class names, in the model's output order. The first entry really
      does contain a space after the hyphen. */
  const ClassNames: seq<string> := [
    "BA- cellulitis",
    "BA-impetigo",
    "FU-athlete-foot",
    "FU-nail-fungus",
    "FU-ringworm",
    "PA-cutaneous-larva-migrans",
    "VI-chickenpox",
    "VI-shingles"
  ]

  /** `k` is where `argmax` must land: a largest score, and the first one. */
  ghost predicate IsFirstMax(scores: seq<real>, k: int)
  {
    0 <= k < |scores|
    && (forall j :: 0 <= j < |scores| ==> scores[j] <= scores[k])
    && (forall j :: 0 <= j < k ==> scores[j] < scores[k])
  }

  /** numpy's `argmax`: a left-to-right scan that moves only on a strictly
      larger score, so ties go to the earliest index. */
  function ArgMax(scores: seq<real>): (k: nat)
    requires |scores| > 0
    ensures IsFirstMax(scores, k)
  {
    if |scores| == 1 then 0
    else
      var k := ArgMax(scores[..|scores| - 1]);
      if scores[|scores| - 1] > scores[k] then |scores| - 1 else k
  }

  /** At most one index is the first largest score. */
  lemma FirstMaxUnique(scores: seq<real>, i: int, j: int)
    requires IsFirstMax(scores, i) && IsFirstMax(scores, j)
    ensures i == j
  {
    var atI, atJ := scores[i], scores[j];
    assert atI <= atJ && atJ <= atI;
  }

  /** `ArgMax` returns exactly the first index of a largest score. */
  lemma ArgMaxIsFirstMax(scores: seq<real>, k: int)
    requires |scores| > 0
    ensures ArgMax(scores) == k <==> IsFirstMax(scores, k)
  {
    if IsFirstMax(scores, k) {
      FirstMaxUnique(scores, ArgMax(scores), k);
    }
  }

  /** `CLASS_NAMES[k]` for an index inside the table. */
  function Label(k: nat): (name: string)
    requires k < |ClassNames|
    ensures name in ClassNames
  {
    ClassNames[k]
  }

  /** What the lookup `CLASS_NAMES[argmax(scores)]` yields: a label, or one
      of the two errors the handler leaves uncaught (numpy refuses an empty
      vector; the list lookup fails past the eighth entry). */
  datatype Selection = Selected(name: string) | EmptyScores | IndexOutOfRange(index: nat)

  function SelectLabel(scores: seq<real>): (s: Selection)
    ensures s == EmptyScores <==> |scores| == 0
    ensures s.Selected? <==> exists k :: IsFirstMax(scores, k) && k < |ClassNames|
    ensures s.Selected? ==> exists k :: IsFirstMax(scores, k) && k < |ClassNames| && s.name == ClassNames[k]
    ensures s.Selected? ==> s.name in ClassNames
    ensures s.IndexOutOfRange? ==> IsFirstMax(scores, s.index) && s.index >= |ClassNames|
    ensures forall k :: IsFirstMax(scores, k) && k >= |ClassNames| ==> s == IndexOutOfRange(k)
    ensures 0 < |scores| <= |ClassNames| ==> s.Selected?
  {
    if |scores| == 0 then EmptyScores
    else
      var k := ArgMax(scores);
      assert forall j :: IsFirstMax(scores, j) ==> j == k by {
        forall j | IsFirstMax(scores, j)
          ensures j == k
        {
          FirstMaxUnique(scores, j, k);
        }
      }
      if k < |ClassNames| then Selected(Label(k)) else IndexOutOfRange(k)
  }

  /** A vector of exactly eight scores always yields the name at the first
      largest score. */
  lemma EightScoresSelectFirstMax(scores: seq<real>, k: int)
    requires |scores| == |ClassNames|
    requires IsFirstMax(scores, k)
    ensures SelectLabel(scores) == Selected(ClassNames[k])
  {
    ArgMaxIsFirstMax(scores, k);
  }

  /** A tie between two classes goes to the earlier one. */
  lemma TieGoesToEarlierClass()
    ensures SelectLabel([0.1, 0.4, 0.4, 0.0, 0.0, 0.0, 0.0, 0.1]) == Selected("BA-impetigo")
  {
    var scores := [0.1, 0.4, 0.4, 0.0, 0.0, 0.0, 0.0, 0.1];
    assert IsFirstMax(scores, 1);
    EightScoresSelectFirstMax(scores, 1);
  }

  /** A longer vector whose largest score sits past the table falls outside
      the lookup: a ninth score that wins gives index 8. */
  lemma NinthScoreOutOfRange()
    ensures SelectLabel([0.0, 0.0, 0.0, 0.0, 0.0, 0.0, 0.0, 0.0, 1.0]) == IndexOutOfRange(8)
  {
    var scores := [0.0, 0.0, 0.0, 0.0, 0.0, 0.0, 0.0, 0.0, 1.0];
    assert IsFirstMax(scores, 8);
    ArgMaxIsFirstMax(scores, 8);
  }
}
