/**
  * The online-shopping purchase predictor: the categorical encodings applied to
  * each spreadsheet row, and the evaluation of a classifier's predictions as a
  * true-positive rate (sensitivity) and a true-negative rate (specificity).
  */
module Shopping {

  // ---------------------------------------------------------------------------
  // Row encoding
  // ---------------------------------------------------------------------------

  /** A field of an encoded row: still text, or an integer code. */
  datatype Value = Text(s: string) | Number(n: int)

  /** The month names as the spreadsheet writes them; June is spelled out. */
  const Months: seq<string> :=
    ["Jan", "Feb", "Mar", "Apr", "May", "June", "Jul", "Aug", "Sep", "Oct", "Nov", "Dec"]

  /** The twelve names are distinct, so a name has at most one index. */
  lemma MonthsDistinct()
    ensures |Months| == 12
    ensures forall a, b :: 0 <= a < b < 12 ==> Months[a] != Months[b]
  {
  }

  /** The fields a row must carry for the encodings to read them. */
  predicate HasCategoricalFields(row: map<string, string>)
  {
    "Month" in row && "VisitorType" in row && "Weekend" in row && "Revenue" in row
  }

  /**
    * Encodes one row read from the spreadsheet, field by field in place: the
    * month name becomes its index in Months (a name not in the list is left as it
    * is), VisitorType becomes 1 for a returning visitor and 0 otherwise, Weekend
    * becomes 1 for "TRUE" and 0 otherwise; the revenue label is 1 exactly when Revenue is
    * "TRUE". Every other field is carried over as text.
    */
  method EncodeRow(row: map<string, string>) returns (encoded: map<string, Value>, revenueLabel: int)
    requires HasCategoricalFields(row)
    ensures encoded.Keys == row.Keys
    ensures forall k :: 0 <= k < |Months| && row["Month"] == Months[k] ==> encoded["Month"] == Number(k)
    ensures row["Month"] !in Months ==> encoded["Month"] == Text(row["Month"])
    ensures encoded["VisitorType"] == Number(if row["VisitorType"] == "Returning_Visitor" then 1 else 0)
    ensures encoded["Weekend"] == Number(if row["Weekend"] == "TRUE" then 1 else 0)
    ensures revenueLabel == (if row["Revenue"] == "TRUE" then 1 else 0)
    ensures forall f :: f in row && f != "Month" && f != "VisitorType" && f != "Weekend" ==> encoded[f] == Text(row[f])
  {
    encoded := map f | f in row :: Text(row[f]);
    MonthsDistinct();
    var mths := Months;
    var mthNum := 0;
    while mthNum < |mths|
      invariant 0 <= mthNum <= |mths|
      invariant encoded == map f | f in row :: Text(row[f])
      invariant forall k :: 0 <= k < mthNum ==> row["Month"] != mths[k]
    {
      if encoded["Month"] == Text(mths[mthNum]) {
        encoded := encoded["Month" := Number(mthNum)];
        break;
      }
      mthNum := mthNum + 1;
    }
    encoded := encoded["VisitorType" := Number(if row["VisitorType"] == "Returning_Visitor" then 1 else 0)];
    encoded := encoded["Weekend" := Number(if row["Weekend"] == "TRUE" then 1 else 0)];
    revenueLabel := if row["Revenue"] == "TRUE" then 1 else 0;
  }

  // ---------------------------------------------------------------------------
  // Evaluation
  // ---------------------------------------------------------------------------

  /** How many entries of s equal v. */
  function Count(s: seq<int>, v: int): (r: nat)
    ensures r <= |s|
  {
    if s == [] then 0 else Count(s[..|s| - 1], v) + if s[|s| - 1] == v then 1 else 0
  }

  /** How many indices of labels hold v both as the label and as the prediction. */
  function Hits(labels: seq<int>, predictions: seq<int>, v: int): (r: nat)
    requires |labels| <= |predictions|
    ensures r <= Count(labels, v)
  {
    if labels == [] then 0
    else
      var n := |labels| - 1;
      Hits(labels[..n], predictions, v) + if labels[n] == v && predictions[n] == v then 1 else 0
  }

  /** How many indices of labels hold v as the label but another value as the prediction. */
  function Misses(labels: seq<int>, predictions: seq<int>, v: int): (r: nat)
    requires |labels| <= |predictions|
    ensures r <= Count(labels, v)
  {
    if labels == [] then 0
    else
      var n := |labels| - 1;
      Misses(labels[..n], predictions, v) + if labels[n] == v && predictions[n] != v then 1 else 0
  }

  /** Every occurrence of a label is either matched by its prediction or missed. */
  lemma {:induction false} HitsAndMisses(labels: seq<int>, predictions: seq<int>, v: int)
    requires |labels| <= |predictions|
    ensures Hits(labels, predictions, v) + Misses(labels, predictions, v) == Count(labels, v)
  {
    if labels != [] {
      HitsAndMisses(labels[..|labels| - 1], predictions, v);
    }
  }

  /** The confusion counts: true and false positives and negatives. */
  datatype Confusion = Confusion(tp: nat, fn: nat, tn: nat, fp: nat)

  /**
    * The confusion counts of predictions against labels: a true positive is a 1
    * predicted as 1, a false negative a 1 predicted as anything else, and likewise
    * true negatives and false positives for the label 0. Together the positives'
    * counts cover every label 1 and the negatives' counts every label 0.
    */
  function ConfusionOf(labels: seq<int>, predictions: seq<int>): (c: Confusion)
    requires |labels| <= |predictions|
    ensures c.tp + c.fn == Count(labels, 1) && c.tn + c.fp == Count(labels, 0)
  {
    HitsAndMisses(labels, predictions, 1);
    HitsAndMisses(labels, predictions, 0);
    Confusion(Hits(labels, predictions, 1), Misses(labels, predictions, 1),
              Hits(labels, predictions, 0), Misses(labels, predictions, 0))
  }

  /** Every label is 0 or 1. */
  predicate Binary(labels: seq<int>)
  {
    forall i :: 0 <= i < |labels| ==> labels[i] == 0 || labels[i] == 1
  }

  /** With binary labels every index is counted once: as a 1 or as a 0. */
  lemma {:induction false} BinaryCounts(labels: seq<int>)
    requires Binary(labels)
    ensures Count(labels, 1) + Count(labels, 0) == |labels|
  {
    if labels != [] {
      BinaryCounts(labels[..|labels| - 1]);
    }
  }

  /** With binary labels the four confusion counts add up to the number of labels. */
  lemma ConfusionTotal(labels: seq<int>, predictions: seq<int>)
    requires |labels| <= |predictions| && Binary(labels)
    ensures var c := ConfusionOf(labels, predictions); c.tp + c.fn + c.tn + c.fp == |labels|
  {
    BinaryCounts(labels);
  }

  /** Count, Hits and Misses gain one with each index the loop visits. */
  lemma PrefixStep(labels: seq<int>, predictions: seq<int>, i: nat)
    requires i < |labels| <= |predictions|
    ensures Count(labels[..i + 1], 1) == Count(labels[..i], 1) + (if labels[i] == 1 then 1 else 0)
    ensures Count(labels[..i + 1], 0) == Count(labels[..i], 0) + (if labels[i] == 0 then 1 else 0)
    ensures Hits(labels[..i + 1], predictions, 1) == Hits(labels[..i], predictions, 1) + (if labels[i] == 1 && predictions[i] == 1 then 1 else 0)
    ensures Hits(labels[..i + 1], predictions, 0) == Hits(labels[..i], predictions, 0) + (if labels[i] == 0 && predictions[i] == 0 then 1 else 0)
    ensures Misses(labels[..i + 1], predictions, 1) == Misses(labels[..i], predictions, 1) + (if labels[i] == 1 && predictions[i] != 1 then 1 else 0)
    ensures Misses(labels[..i + 1], predictions, 0) == Misses(labels[..i], predictions, 0) + (if labels[i] == 0 && predictions[i] != 0 then 1 else 0)
  {
    assert labels[..i + 1][..i] == labels[..i];
  }

  /**
    * Tallies the confusion counts over the labels and returns the true-positive
    * rate tp / (tp + fn) and the true-negative rate tn / (tn + fp), each between 0
    * and 1. The division needs at least one label 1 and one label 0, and every
    * label needs a prediction at the same index.
    */
  method Evaluate(labels: seq<int>, predictions: seq<int>) returns (sensitivity: real, specificity: real)
    requires |labels| <= |predictions|
    requires Count(labels, 1) > 0 && Count(labels, 0) > 0
    ensures var c := ConfusionOf(labels, predictions);
      sensitivity == c.tp as real / (c.tp + c.fn) as real && specificity == c.tn as real / (c.tn + c.fp) as real
    ensures sensitivity == Hits(labels, predictions, 1) as real / Count(labels, 1) as real
    ensures specificity == Hits(labels, predictions, 0) as real / Count(labels, 0) as real
    ensures 0.0 <= sensitivity <= 1.0 && 0.0 <= specificity <= 1.0
  {
    var tp, fn, tn, fp := 0, 0, 0, 0;
    for i := 0 to |labels|
      invariant tp == Hits(labels[..i], predictions, 1) && fn == Misses(labels[..i], predictions, 1)
      invariant tn == Hits(labels[..i], predictions, 0) && fp == Misses(labels[..i], predictions, 0)
    {
      PrefixStep(labels, predictions, i);
      if labels[i] == predictions[i] {
        if labels[i] == 1 {
          tp := tp + 1;
        }
        if labels[i] == 0 {
          tn := tn + 1;
        }
      } else {
        if labels[i] == 1 {
          fn := fn + 1;
        }
        if labels[i] == 0 {
          fp := fp + 1;
        }
      }
    }
    assert labels[..|labels|] == labels;
    HitsAndMisses(labels, predictions, 1);
    HitsAndMisses(labels, predictions, 0);
    sensitivity := tp as real / (tp + fn) as real;
    specificity := tn as real / (tn + fp) as real;
    RatioAtMostOne(tp, fn);
    RatioAtMostOne(tn, fp);
  }

  /** A part over a positive whole is between 0 and 1. */
  lemma RatioAtMostOne(part: nat, rest: nat)
    requires part + rest > 0
    ensures 0.0 <= part as real / (part + rest) as real <= 1.0
  {
    var whole := (part + rest) as real;
    assert part as real / whole * whole == part as real;
  }
}
