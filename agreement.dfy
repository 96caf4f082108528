/** How the trainer (model/train_model.py) and the web application (app.py) fit together: the
    application sends the classifier a row with the columns it was trained on, reads its answer
    with the same outcome codes, and codes the teams the way the training rows were coded. */
module Agreement {
  import opened Results
  import opened Frames
  import opened Names
  import opened Encoding
  import opened Training
  import opened Inference

  /** The columns of X, in order, are the columns of every feature row the application builds. */
  lemma ServedColumnsAreTrained(df: Frame, kept: Frame, b: Bundle, f: Frame, home: string, away: string)
    requires WellFormed(df) && Distinct(KeepColumns) && Project(df, KeepColumns) == Ok(kept)
    requires CleanAndPrepare(df).Ok?
    requires HasTeamColumns(f) && Features(b, f, home, away).Ok?
    ensures Features(b, f, home, away).value.columns == CleanAndPrepare(df).value.x.columns
  {
    CleanAndPrepareRows(df, kept);
    FeaturesSpec(b, f, home, away);
    FeatureColumnsAreKept();
  }

  /** The eighteen columns the trainer keeps besides the result are the application's. */
  lemma FeatureColumnsAreKept()
    ensures KeepColumns[..18] == FeatureColumns()
  {
  }

  /** The result letters the trainer codes are read back as the outcome they stand for, and a
      code the trainer never produces is not read as an outcome. */
  lemma OutcomeCodesAgree(c: Cell)
    ensures c == Str("H") ==> ResultMap(OutcomeCode(c).i) == Ok(HomeWin)
    ensures c == Str("D") ==> ResultMap(OutcomeCode(c).i) == Ok(Draw)
    ensures c == Str("A") ==> ResultMap(OutcomeCode(c).i) == Ok(AwayWin)
    ensures OutcomeCode(c).Int? ==> ResultMap(OutcomeCode(c).i).Ok?
  {
  }

  /** With the fitted encoders in the bundle, a training row's team names transform to the codes
      X holds for that row, so a request for that pairing sends the classifier the same codes. */
  lemma ServedCodesAreTrained(df: Frame, kept: Frame, i: nat, b: Bundle, f: Frame)
    requires WellFormed(df) && Distinct(KeepColumns) && Project(df, KeepColumns) == Ok(kept)
    requires CleanAndPrepare(df).Ok? && i < |CompleteRows(kept)|
    requires b.homeEncoder == CleanAndPrepare(df).value.homeEncoder
    requires b.awayEncoder == CleanAndPrepare(df).value.awayEncoder
    ensures var p := CleanAndPrepare(df).value;
      TrainingRows(p.x, p.y, CompleteRows(kept), p.homeEncoder, p.awayEncoder)
    ensures var p, c := CleanAndPrepare(df).value, CompleteRows(kept);
      CodesAgree(p.x, c, i, b, f)
  {
    var p, c := CleanAndPrepare(df).value, CompleteRows(kept);
    CleanAndPrepareRows(df, kept);
    RowCodesAgree(p.x, p.y, c, i, b, f);
  }

  /** Row `i` of X holds, for the names of row `i` of `c`, the codes the bundle's encoders give
      them and the codes a feature row for that pairing starts with. */
  predicate CodesAgree(x: Frame, c: seq<Row>, i: nat, b: Bundle, f: Frame)
    requires i < |x.rows| && i < |c| && 1 < |x.rows[i]| && 1 < |c[i]|
  {
    && c[i][0].Str? && c[i][1].Str? && x.rows[i][0].Int? && x.rows[i][1].Int?
    && Transform(b.homeEncoder, c[i][0].s) == Ok(x.rows[i][0].i)
    && Transform(b.awayEncoder, c[i][1].s) == Ok(x.rows[i][1].i)
    && (HasTeamColumns(f) && Features(b, f, c[i][0].s, c[i][1].s).Ok? ==>
          && Features(b, f, c[i][0].s, c[i][1].s).value.values[0] == x.rows[i][0].i as real
          && Features(b, f, c[i][0].s, c[i][1].s).value.values[1] == x.rows[i][1].i as real)
  }

  lemma RowCodesAgree(x: Frame, y: seq<Cell>, c: seq<Row>, i: nat, b: Bundle, f: Frame)
    requires TrainingRows(x, y, c, b.homeEncoder, b.awayEncoder) && i < |c|
    requires StrictlySorted(b.homeEncoder.classes) && StrictlySorted(b.awayEncoder.classes)
    ensures CodesAgree(x, c, i, b, f)
  {
    TransformInverts(b.homeEncoder, x.rows[i][0].i);
    TransformInverts(b.awayEncoder, x.rows[i][1].i);
    if HasTeamColumns(f) {
      FeaturesSpec(b, f, c[i][0].s, c[i][1].s);
    }
  }
}
