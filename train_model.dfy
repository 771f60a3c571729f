/**
 * The label construction of the training script: rows missing a critical
 * value are dropped, profitability thresholds are tried in a fixed order
 * until one splits the movies into hits and non-hits, and the two features
 * and the labels of that threshold are what the classifier is fitted on.
 */
module TrainModel {
  import opened Python

  /** One row of `data/movies.csv`; None stands for a missing (NaN) value,
      and `releaseMonth` for the month `pd.to_datetime(..., errors='coerce')`
      extracts from the release date (None when it does not parse). */
  datatype MovieRow = MovieRow(budget: Option<real>, releaseMonth: Option<int>, revenue: Option<real>)

  /** A row with all three critical values. */
  datatype Movie = Movie(budget: real, releaseMonth: int, revenue: real)

  /** The profitability thresholds, in the order they are tried. */
  const THRESHOLDS: seq<real> := [2.0, 1.5, 1.0, 0.8]

  /** `feature_cols`, also stored in the artifact as `feature_names`. */
  const FEATURE_COLS: seq<string> := ["budget", "release_month"]

  predicate Complete(row: MovieRow) {
    row.budget.Some? && row.releaseMonth.Some? && row.revenue.Some?
  }

  function ToMovie(row: MovieRow): Movie
    requires Complete(row)
  {
    Movie(row.budget.value, row.releaseMonth.value, row.revenue.value)
  }

  /** `df.dropna(subset=["budget", "release_month", "revenue"])`. */
  function DropIncomplete(rows: seq<MovieRow>): seq<Movie> {
    if rows == [] then []
    else
      var last := rows[|rows| - 1];
      DropIncomplete(rows[..|rows| - 1]) + (if Complete(last) then [ToMovie(last)] else [])
  }

  /** `revenue > t * budget`, strictly. */
  predicate IsHit(m: Movie, t: real) {
    m.revenue > t * m.budget
  }

  /** The `is_hit` column at threshold `t`. */
  function Labels(movies: seq<Movie>, t: real): (labels: seq<bool>)
    ensures |labels| == |movies|
  {
    seq(|movies|, i requires 0 <= i < |movies| => IsHit(movies[i], t))
  }

  /** `len(df["is_hit"].value_counts()) >= 2`: both classes occur. */
  predicate BothClasses(labels: seq<bool>) {
    true in labels && false in labels
  }

  /** The index of the first threshold, from `from` on, whose labels contain
      both classes. */
  function FirstSplitting(movies: seq<Movie>, from: nat): Option<nat>
    decreases |THRESHOLDS| - from
  {
    if from >= |THRESHOLDS| then None
    else if BothClasses(Labels(movies, THRESHOLDS[from])) then Some(from)
    else FirstSplitting(movies, from + 1)
  }

  /** The threshold loop: labels are recomputed for each threshold in turn,
      and the loop stops at the first one giving both classes. */
  method SelectThreshold(movies: seq<Movie>) returns (success: bool, t: real, isHit: seq<bool>)
    ensures success <==> FirstSplitting(movies, 0).Some?
    ensures success ==> t == THRESHOLDS[FirstSplitting(movies, 0).value] && isHit == Labels(movies, t)
  {
    success := false;
    t := 0.0;
    isHit := [];
    var k := 0;
    while k < |THRESHOLDS|
      invariant 0 <= k <= |THRESHOLDS|
      invariant FirstSplitting(movies, k) == FirstSplitting(movies, 0)
    {
      t := THRESHOLDS[k];
      isHit := Labels(movies, t);
      if true in isHit && false in isHit {
        success := true;
        break;
      }
      k := k + 1;
    }
  }

  /** Why training stops without an artifact. */
  datatype TrainError = DegenerateLabels

  /** What the classifier is fitted on and what the artifact records: the
      chosen threshold, the feature names, one `(budget, release_month)`
      pair per movie, and the labels. */
  datatype TrainingSet = TrainingSet(threshold: real, featureNames: seq<string>,
                                     features: seq<(real, int)>, labels: seq<bool>)

  datatype Outcome = Trained(training: TrainingSet) | Failed(error: TrainError)

  /** The script up to the fit: drop incomplete rows, choose the threshold
      (exit status 1 when none splits), then select features and target. */
  method Train(rows: seq<MovieRow>) returns (r: Outcome)
    ensures r.Failed? <==> forall k :: 0 <= k < |THRESHOLDS| ==> !BothClasses(Labels(DropIncomplete(rows), THRESHOLDS[k]))
    ensures r.Trained? ==>
              var movies := DropIncomplete(rows);
              && r.training.featureNames == ["budget", "release_month"]
              && (exists k :: 0 <= k < |THRESHOLDS| && r.training.threshold == THRESHOLDS[k]
                             && BothClasses(Labels(movies, THRESHOLDS[k]))
                             && forall j :: 0 <= j < k ==> !BothClasses(Labels(movies, THRESHOLDS[j])))
              && r.training.labels == Labels(movies, r.training.threshold)
              && |r.training.features| == |movies|
              && forall i :: 0 <= i < |movies| ==> r.training.features[i] == (movies[i].budget, movies[i].releaseMonth)
  {
    var movies := DropIncomplete(rows);
    var success, t, isHit := SelectThreshold(movies);
    FirstSplittingSpec(movies, 0);
    if !success {
      return Failed(DegenerateLabels);
    }
    var x := seq(|movies|, i requires 0 <= i < |movies| => (movies[i].budget, movies[i].releaseMonth));
    r := Trained(TrainingSet(t, FEATURE_COLS, x, isHit));
  }

  // ---------------------------------------------------------------------------
  // Properties
  // ---------------------------------------------------------------------------

  /** The search returns the first threshold from `from` on whose labels
      contain both classes, and none when there is no such threshold. */
  lemma {:induction false} FirstSplittingSpec(movies: seq<Movie>, from: nat)
    decreases |THRESHOLDS| - from
    ensures var r := FirstSplitting(movies, from);
            r.Some? ==> && from <= r.value < |THRESHOLDS|
                        && BothClasses(Labels(movies, THRESHOLDS[r.value]))
                        && forall j :: from <= j < r.value ==> !BothClasses(Labels(movies, THRESHOLDS[j]))
    ensures FirstSplitting(movies, from).None? <==>
              forall j :: from <= j < |THRESHOLDS| ==> !BothClasses(Labels(movies, THRESHOLDS[j]))
  {
    if from < |THRESHOLDS| && !BothClasses(Labels(movies, THRESHOLDS[from])) {
      FirstSplittingSpec(movies, from + 1);
    }
  }

  /** A row survives the filter exactly when it has all three values, and
      the survivors keep their values. */
  lemma {:induction false} DropIncompleteSpec(rows: seq<MovieRow>)
    ensures forall m :: m in DropIncomplete(rows) <==> exists row :: row in rows && Complete(row) && ToMovie(row) == m
  {
    if rows != [] {
      var init := rows[..|rows| - 1];
      DropIncompleteSpec(init);
      assert rows == init + [rows[|rows| - 1]];
    }
  }

  /** The filter keeps the order of the rows: filtering a concatenation is
      concatenating the filtered parts. */
  lemma {:induction false} DropIncompleteAppend(a: seq<MovieRow>, b: seq<MovieRow>)
    ensures DropIncomplete(a + b) == DropIncomplete(a) + DropIncomplete(b)
  {
    if b == [] {
      assert a + b == a;
    } else {
      DropIncompleteAppend(a, b[..|b| - 1]);
      assert (a + b)[..|a + b| - 1] == a + b[..|b| - 1];
    }
  }

  /** With fewer than two movies left no threshold can give both classes, so
      training fails. */
  lemma FewMoviesFail(movies: seq<Movie>)
    requires |movies| < 2
    ensures FirstSplitting(movies, 0).None?
  {
    forall j | 0 <= j < |THRESHOLDS|
      ensures !BothClasses(Labels(movies, THRESHOLDS[j]))
    {
      var labels := Labels(movies, THRESHOLDS[j]);
      if |labels| == 1 {
        assert labels == [labels[0]];
      }
    }
    FirstSplittingSpec(movies, 0);
  }

  /** A positive budget, and a revenue of `c` times it. */
  predicate HasRatio(m: Movie, c: real) {
    m.budget > 0.0 && m.revenue == c * m.budget
  }

  /** With a positive budget, being a hit at a threshold only depends on the
      revenue-to-budget ratio. */
  lemma HitByRatio(m: Movie, c: real, t: real)
    requires HasRatio(m, c)
    ensures IsHit(m, t) <==> c > t
  {
    if c > t {
      assert c * m.budget - t * m.budget == (c - t) * m.budget;
    } else {
      assert t * m.budget - c * m.budget == (t - c) * m.budget;
    }
  }

  /** Movies sharing one revenue-to-budget ratio are all hits or all
      non-hits at every threshold, so training fails. */
  lemma ConstantRatioFails(movies: seq<Movie>, c: real)
    requires forall i :: 0 <= i < |movies| ==> HasRatio(movies[i], c)
    ensures FirstSplitting(movies, 0).None?
  {
    forall j | 0 <= j < |THRESHOLDS|
      ensures !BothClasses(Labels(movies, THRESHOLDS[j]))
    {
      var t := THRESHOLDS[j];
      var labels := Labels(movies, t);
      forall i | 0 <= i < |movies| ensures labels[i] == (c > t) {
        HitByRatio(movies[i], c, t);
      }
      if c > t {
        assert false !in labels;
      } else {
        assert true !in labels;
      }
    }
    FirstSplittingSpec(movies, 0);
  }

  /** A threshold lower than a hit's stays a hit when the budget is not
      negative. */
  lemma HitMonotone(m: Movie, t: real, t': real)
    requires m.budget >= 0.0 && t' <= t && IsHit(m, t)
    ensures IsHit(m, t')
  {
    assert t * m.budget - t' * m.budget == (t - t') * m.budget;
  }

  /** When no movie earns more than its (non-negative) budget, the first
      three thresholds give only non-hits, and a mix at 0.8 makes 0.8 the
      chosen threshold. */
  lemma LowestThresholdChosen(movies: seq<Movie>)
    requires forall i :: 0 <= i < |movies| ==> movies[i].budget >= 0.0 && movies[i].revenue <= movies[i].budget
    requires BothClasses(Labels(movies, 0.8))
    ensures FirstSplitting(movies, 0) == Some(3)
  {
    forall j | 0 <= j < 3
      ensures !BothClasses(Labels(movies, THRESHOLDS[j]))
    {
      var t := THRESHOLDS[j];
      assert t >= 1.0;
      forall i | 0 <= i < |movies| ensures !Labels(movies, t)[i] {
        if IsHit(movies[i], t) {
          HitMonotone(movies[i], t, 1.0);
        }
      }
    }
    FirstSplittingSpec(movies, 0);
  }
}
