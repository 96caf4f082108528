/** The prediction page (app.py): recent-form averages from the match history, the blended
    feature row handed to the classifier, and the outcome shown to the user. The classifier and
    the two team encoders are values loaded once at start-up and only read. */
module Inference {
  import opened Results
  import opened Frames
  import opened Names
  import opened Encoding

  /** The sixteen statistics averaged per team, in feature order. */
  const StatCols: seq<string> :=
    ["FTHG", "FTAG", "HTHG", "HTAG",
     "HS", "AS", "HST", "AST",
     "HF", "AF", "HC", "AC",
     "HY", "AY", "HR", "AR"]

  /** How many of a team's latest matches in one role are averaged. */
  const RecentMatches: nat := 8

  /** Names of the columns of the row given to the classifier, in order. */
  function FeatureColumns(): seq<string> {
    ["HomeTeam", "AwayTeam"] + StatCols
  }

  predicate HasTeamColumns(f: Frame) {
    WellFormed(f) && "HomeTeam" in f.columns && "AwayTeam" in f.columns
  }

  function RoleColumn(isHome: bool): string {
    if isHome then "HomeTeam" else "AwayTeam"
  }

  /** Whether a history row has `team` in the given role. */
  function InRole(f: Frame, team: string, isHome: bool): Row -> bool
    requires HasTeamColumns(f)
  {
    var k := IndexOf(f.columns, RoleColumn(isHome));
    r => k < |r| && r[k] == Str(team)
  }

  /** The team's latest matches in the given role, oldest first. Every row of the window is a
      history row with the team in the requested role. */
  function Window(f: Frame, team: string, isHome: bool): (w: seq<Row>)
    requires HasTeamColumns(f)
    ensures forall r | r in w ::
      r in f.rows && |r| == |f.columns| && r[IndexOf(f.columns, RoleColumn(isHome))] == Str(team)
  {
    var p := InRole(f, team, isHome);
    FilterSound(f.rows, p);
    var m := Filter(f.rows, p);
    var w := Tail(m, RecentMatches);
    assert forall r | r in w :: r in m;
    w
  }

  /** The window holds at most eight rows: exactly the last min(8, k) of the k history rows
      that have the team in the role, in table order. */
  lemma WindowIsLastMatches(f: Frame, team: string, isHome: bool)
    requires HasTeamColumns(f)
    ensures var k := IndexOf(f.columns, RoleColumn(isHome));
      var h, w := Hits(f.rows, InRole(f, team, isHome)), Window(f, team, isHome);
      && Increasing(h)
      && (forall i | 0 <= i < |f.rows| :: i in h <==> f.rows[i][k] == Str(team))
      && |w| == Min(|h|, RecentMatches)
      && (forall j | 0 <= j < |w| :: h[|h| - |w| + j] < |f.rows| && w[j] == f.rows[h[|h| - |w| + j]])
  {
    var p := InRole(f, team, isHome);
    HitsAreRoleRows(f, team, isHome);
    assert Window(f, team, isHome) == Tail(Filter(f.rows, p), RecentMatches);
    TailOfFilter(f.rows, p, RecentMatches);
  }

  /** The positions picked for the window are, in increasing order, those of the rows with the
      team in the role. */
  lemma HitsAreRoleRows(f: Frame, team: string, isHome: bool)
    requires HasTeamColumns(f)
    ensures var k := IndexOf(f.columns, RoleColumn(isHome));
      var h := Hits(f.rows, InRole(f, team, isHome));
      && Increasing(h)
      && forall i | 0 <= i < |f.rows| :: i in h <==> f.rows[i][k] == Str(team)
  {
    var k := IndexOf(f.columns, RoleColumn(isHome));
    var p := InRole(f, team, isHome);
    FilterHits(f.rows, p);
    var h := Hits(f.rows, p);
    forall i | 0 <= i < |f.rows|
      ensures i in h <==> f.rows[i][k] == Str(team)
    {
      assert f.rows[i] in f.rows;
      assert p(f.rows[i]) <==> f.rows[i][k] == Str(team);
    }
  }

  /** A cell as `fillna(0)` leaves it for `mean`: missing counts as 0, text cannot be summed. */
  function CellNumber(c: Cell, col: string): Result<int> {
    match c
    case Missing => Ok(0)
    case Int(i) => Ok(i)
    case Str(_) => Err(NonNumeric(col))
  }

  predicate Numeric(w: seq<Row>, k: nat)
    requires forall r | r in w :: k < |r|
  {
    forall r: Row | r in w :: !r[k].Str?
  }

  function ColumnSum(w: seq<Row>, k: nat, col: string): (r: Result<int>)
    requires forall row | row in w :: k < |row|
    ensures r.Ok? <==> Numeric(w, k)
    ensures r.Err? ==> r.error == NonNumeric(col)
  {
    if w == [] then Ok(0)
    else
      match CellNumber(w[0][k], col)
      case Err(e) => Err(e)
      case Ok(x) =>
        match ColumnSum(w[1..], k, col)
        case Err(e) => Err(e)
        case Ok(s) => Ok(x + s)
  }

  /** `mean` of column `k` over the window: the sum divided by the number of rows; no rows is
      an error, and so is a text cell. */
  function ColumnMean(w: seq<Row>, k: nat, col: string): (r: Result<real>)
    requires forall row | row in w :: k < |row|
    ensures r.Ok? <==> w != [] && Numeric(w, k)
    ensures r.Err? ==> r.error == if w == [] then NoData else NonNumeric(col)
  {
    if w == [] then Err(NoData)
    else
      match ColumnSum(w, k, col)
      case Err(e) => Err(e)
      case Ok(s) => Ok(s as real / |w| as real)
  }

  /** The sum lies between the smallest and the largest possible totals. */
  lemma {:induction false} SumBounds(w: seq<Row>, k: nat, col: string, lo: int, hi: int)
    requires forall row | row in w :: k < |row|
    requires forall row | row in w :: CellNumber(row[k], col).Ok? && lo <= CellNumber(row[k], col).value <= hi
    ensures ColumnSum(w, k, col).Ok?
    ensures lo * |w| <= ColumnSum(w, k, col).value <= hi * |w|
  {
    if w != [] {
      assert w[0] in w;
      var t := w[1..];
      assert forall row | row in t :: row in w;
      SumBounds(t, k, col, lo, hi);
      var x, s := CellNumber(w[0][k], col).value, ColumnSum(t, k, col).value;
      assert ColumnSum(w, k, col).value == x + s;
      MulStep(lo, |t|);
      MulStep(hi, |t|);
    }
  }

  lemma MulStep(a: int, n: nat)
    ensures a * (n + 1) == a * n + a
  {
  }

  /** A mean lies between the least and the greatest value averaged (missing counting as 0). */
  lemma MeanBounds(w: seq<Row>, k: nat, col: string, lo: int, hi: int)
    requires w != [] && forall row | row in w :: k < |row|
    requires forall row | row in w :: CellNumber(row[k], col).Ok? && lo <= CellNumber(row[k], col).value <= hi
    ensures ColumnMean(w, k, col).Ok?
    ensures lo as real <= ColumnMean(w, k, col).value <= hi as real
  {
    SumBounds(w, k, col, lo, hi);
    var s := ColumnSum(w, k, col).value;
    assert ColumnMean(w, k, col) == Ok(s as real / |w| as real);
    MeanOfSum(s, |w|, lo, hi);
  }

  /** A total between `lo * n` and `hi * n`, shared among `n`, lies between `lo` and `hi`. */
  lemma MeanOfSum(s: int, n: nat, lo: int, hi: int)
    requires n > 0 && lo * n <= s <= hi * n
    ensures lo as real <= s as real / n as real <= hi as real
  {
    var q, m := s as real / n as real, n as real;
    assert q * m == s as real;
    assert (lo * n) as real == lo as real * m && (hi * n) as real == hi as real * m;
    assert (q - lo as real) * m >= 0.0 && (hi as real - q) * m >= 0.0;
  }

  /** The value the comprehension produces for one statistic: the mean over the window when
      the history has that column, otherwise 0. */
  function ColumnAverage(f: Frame, w: seq<Row>, col: string): Result<real>
    requires WellFormed(f) && forall row | row in w :: |row| == |f.columns|
  {
    if col in f.columns then ColumnMean(w, IndexOf(f.columns, col), col) else Ok(0.0)
  }

  /** One average per column of `cols`, in order; the first failing column ends the list. */
  function AveragesOver(f: Frame, w: seq<Row>, cols: seq<string>): (r: Result<seq<real>>)
    requires WellFormed(f) && forall row | row in w :: |row| == |f.columns|
    ensures r.Ok? <==> forall c | c in cols :: ColumnAverage(f, w, c).Ok?
    ensures r.Ok? ==> |r.value| == |cols|
    ensures r.Ok? ==> forall i | 0 <= i < |cols| :: r.value[i] == ColumnAverage(f, w, cols[i]).value
    ensures r.Err? ==> r.error == NoData || r.error.NonNumeric?
    ensures r.Err? ==> exists i | 0 <= i < |cols| ::
      && ColumnAverage(f, w, cols[i]) == Err(r.error)
      && forall j | 0 <= j < i :: ColumnAverage(f, w, cols[j]).Ok?
  {
    if cols == [] then Ok([])
    else
      match ColumnAverage(f, w, cols[0])
      case Err(e) => Err(e)
      case Ok(v) =>
        match AveragesOver(f, w, cols[1..])
        case Err(e) =>
          assert forall c | c in cols[1..] :: c in cols;
          ghost var i :| 0 <= i < |cols[1..]| && ColumnAverage(f, w, cols[1..][i]) == Err(e)
            && forall j | 0 <= j < i :: ColumnAverage(f, w, cols[1..][j]).Ok?;
          assert ColumnAverage(f, w, cols[i + 1]) == Err(e);
          Err(e)
        case Ok(vs) => Ok([v] + vs)
  }

  /** `get_recent_averages(team, is_home)`. */
  function RecentAverages(f: Frame, team: string, isHome: bool): Result<seq<real>>
    requires HasTeamColumns(f)
  {
    AveragesOver(f, Window(f, team, isHome), StatCols)
  }

  /** Sixteen values, the i-th the mean of statistic i over the window (0 for a statistic the
      history lacks); they exist exactly when every present statistic can be averaged. */
  lemma RecentAveragesSpec(f: Frame, team: string, isHome: bool)
    requires HasTeamColumns(f)
    ensures var w, r := Window(f, team, isHome), RecentAverages(f, team, isHome);
      && (r.Ok? <==> forall c | c in StatCols && c in f.columns ::
            w != [] && Numeric(w, IndexOf(f.columns, c)))
      && (r.Ok? ==> |r.value| == |StatCols|)
      && (r.Ok? ==> forall i | 0 <= i < |StatCols| ::
            r.value[i] == if StatCols[i] in f.columns
              then ColumnSum(w, IndexOf(f.columns, StatCols[i]), StatCols[i]).value as real / |w| as real
              else 0.0)
  {
    AveragesOverStats(f, Window(f, team, isHome));
  }

  lemma AveragesOverStats(f: Frame, w: seq<Row>)
    requires WellFormed(f) && forall row | row in w :: |row| == |f.columns|
    ensures var r := AveragesOver(f, w, StatCols);
      && (r.Ok? <==> forall c | c in StatCols && c in f.columns ::
            w != [] && Numeric(w, IndexOf(f.columns, c)))
      && (r.Ok? ==> |r.value| == |StatCols|)
      && (r.Ok? ==> forall i | 0 <= i < |StatCols| ::
            r.value[i] == if StatCols[i] in f.columns
              then ColumnSum(w, IndexOf(f.columns, StatCols[i]), StatCols[i]).value as real / |w| as real
              else 0.0)
  {
    var r := AveragesOver(f, w, StatCols);
    if r.Ok? {
      forall i | 0 <= i < |StatCols|
        ensures r.value[i] == if StatCols[i] in f.columns
          then ColumnSum(w, IndexOf(f.columns, StatCols[i]), StatCols[i]).value as real / |w| as real
          else 0.0
      {
        assert r.value[i] == ColumnAverage(f, w, StatCols[i]).value;
      }
    }
  }

  /** A team with no match in the role gets no vector of zeros: averaging fails with NoData as
      soon as the history has any of the statistics. */
  lemma NoHistoryFails(f: Frame, team: string, isHome: bool)
    requires HasTeamColumns(f)
    requires Window(f, team, isHome) == []
    ensures RecentAverages(f, team, isHome) ==
      if exists c | c in StatCols :: c in f.columns then Err(NoData) else Ok(seq(|StatCols|, i => 0.0))
  {
    var w := Window(f, team, isHome);
    var r := RecentAverages(f, team, isHome);
    if exists c | c in StatCols :: c in f.columns {
      var c :| c in StatCols && c in f.columns;
      assert !ColumnAverage(f, w, c).Ok?;
      var i :| 0 <= i < |StatCols| && ColumnAverage(f, w, StatCols[i]) == Err(r.error);
    } else {
      assert r.Ok?;
      assert r.value == seq(|StatCols|, i => 0.0);
    }
  }

  /** The element-wise average of the home and away vectors (zip stops at the shorter). */
  function Blend(h: seq<real>, a: seq<real>): seq<real> {
    seq(if |h| <= |a| then |h| else |a|, i requires 0 <= i < |h| && i < |a| => (h[i] + a[i]) / 2.0)
  }

  /** Blending is symmetric in home and away. */
  lemma BlendSymmetric(h: seq<real>, a: seq<real>)
    ensures Blend(h, a) == Blend(a, h)
  {
  }

  /** Each blended entry lies between the two entries it comes from, and blending a vector with
      itself gives it back. */
  lemma BlendBetween(h: seq<real>, a: seq<real>)
    requires |h| == |a|
    ensures |Blend(h, a)| == |h|
    ensures forall i | 0 <= i < |h| ::
      (h[i] <= Blend(h, a)[i] <= a[i]) || (a[i] <= Blend(h, a)[i] <= h[i])
    ensures Blend(h, h) == h
  {
  }

  /** The single row handed to the classifier. */
  datatype FeatureRow = FeatureRow(columns: seq<string>, values: seq<real>)

  /** `pd.DataFrame([[h_enc, a_enc] + blended], columns=...)`: building the frame fails unless
      the values are as many as the column names. */
  function Assemble(hEnc: nat, aEnc: nat, blended: seq<real>): (r: Result<FeatureRow>)
    ensures r.Ok? <==> |blended| == |StatCols|
    ensures r.Ok? ==> r.value.columns == FeatureColumns() && |r.value.values| == |r.value.columns|
    ensures r.Ok? ==> r.value.values[..2] == [hEnc as real, aEnc as real] && r.value.values[2..] == blended
    ensures r.Err? ==> r.error == ColumnCount(2 + |blended|)
  {
    var values := [hEnc as real, aEnc as real] + blended;
    if |values| != |FeatureColumns()| then Err(ColumnCount(|values|))
    else Ok(FeatureRow(FeatureColumns(), values))
  }

  datatype Outcome = HomeWin | Draw | AwayWin

  /** `result_map[pred]`: class 0, 1, 2 read as home win, draw, away win; any other class is a
      failed lookup. */
  function ResultMap(code: int): (r: Result<Outcome>)
    ensures r.Ok? <==> 0 <= code <= 2
    ensures r.Err? ==> r.error == UnknownLabel(code)
    ensures r.Ok? ==> (r.value == HomeWin <==> code == 0) && (r.value == AwayWin <==> code == 2)
  {
    if code == 0 then Ok(HomeWin)
    else if code == 1 then Ok(Draw)
    else if code == 2 then Ok(AwayWin)
    else Err(UnknownLabel(code))
  }

  /** What start-up loads: the classifier and the encoders fitted on each team column. */
  datatype Bundle = Bundle(classifier: FeatureRow -> int, homeEncoder: LabelEncoder, awayEncoder: LabelEncoder)

  /** Encode both names, average both teams' recent form, blend, and assemble the row. */
  function Features(b: Bundle, f: Frame, home: string, away: string): Result<FeatureRow>
    requires HasTeamColumns(f)
  {
    match Transform(b.homeEncoder, home)
    case Err(e) => Err(e)
    case Ok(hEnc) =>
      match Transform(b.awayEncoder, away)
      case Err(e) => Err(e)
      case Ok(aEnc) =>
        match RecentAverages(f, home, true)
        case Err(e) => Err(e)
        case Ok(hStats) =>
          match RecentAverages(f, away, false)
          case Err(e) => Err(e)
          case Ok(aStats) => Assemble(hEnc, aEnc, Blend(hStats, aStats))
  }

  /** Every failure in building the feature row comes from an encoder or from averaging:
      the row is never refused for its width. */
  lemma FeaturesNeverMisshapen(b: Bundle, f: Frame, home: string, away: string)
    requires HasTeamColumns(f)
    ensures var r := Features(b, f, home, away);
      r.Err? ==> r.error.UnseenLabel? || r.error == NoData || r.error.NonNumeric?
  {
    var hs, aws := RecentAverages(f, home, true), RecentAverages(f, away, false);
    assert hs.Ok? ==> |hs.value| == |StatCols|;
    assert aws.Ok? ==> |aws.value| == |StatCols|;
  }

  /** The feature row always has the training column order: the two team codes followed by the
      blend of the home team's and the away team's average of each statistic, in the order of
      the statistic names. */
  lemma FeaturesSpec(b: Bundle, f: Frame, home: string, away: string)
    requires HasTeamColumns(f)
    ensures var r := Features(b, f, home, away);
      r.Ok? ==>
        var hs, aws := RecentAverages(f, home, true), RecentAverages(f, away, false);
        && hs.Ok? && aws.Ok?
        && r.value.columns == FeatureColumns()
        && |r.value.values| == |FeatureColumns()|
        && r.value.values[0] == Transform(b.homeEncoder, home).value as real
        && r.value.values[1] == Transform(b.awayEncoder, away).value as real
        && forall i | 0 <= i < |StatCols| ::
             r.value.columns[2 + i] == StatCols[i] &&
             r.value.values[2 + i] == (hs.value[i] + aws.value[i]) / 2.0
  {
    var r := Features(b, f, home, away);
    if r.Ok? {
      var he, ae := Transform(b.homeEncoder, home), Transform(b.awayEncoder, away);
      var hs, aws := RecentAverages(f, home, true), RecentAverages(f, away, false);
      assert he.Ok? && ae.Ok? && hs.Ok? && aws.Ok?;
      assert r == Assemble(he.value, ae.value, Blend(hs.value, aws.value));
      AssembledBlend(he.value, ae.value, hs.value, aws.value, r.value);
    }
  }

  lemma AssembledBlend(hEnc: nat, aEnc: nat, h: seq<real>, a: seq<real>, row: FeatureRow)
    requires Assemble(hEnc, aEnc, Blend(h, a)) == Ok(row)
    ensures row.columns == FeatureColumns() && |row.values| == |FeatureColumns()|
    ensures row.values[0] == hEnc as real && row.values[1] == aEnc as real
    ensures |h| >= |StatCols| && |a| >= |StatCols|
    ensures forall i | 0 <= i < |StatCols| ::
      row.columns[2 + i] == StatCols[i] && row.values[2 + i] == (h[i] + a[i]) / 2.0
  {
    assert row.values[..2][0] == row.values[0] && row.values[..2][1] == row.values[1];
    forall i | 0 <= i < |StatCols|
      ensures row.columns[2 + i] == StatCols[i] && row.values[2 + i] == (h[i] + a[i]) / 2.0
    {
      assert row.values[2 + i] == row.values[2..][i];
    }
  }

  /** What the page shows below the form: nothing, an outcome, or an "Error: ..." message. */
  datatype Prediction = Blank | Predicted(outcome: Outcome) | Failed(error: Failure)

  /** The POST branch: identical teams are ignored; any failure becomes the error message. */
  function Predict(b: Bundle, f: Frame, home: string, away: string): Prediction
    requires HasTeamColumns(f)
  {
    if home == away then Blank
    else
      match Features(b, f, home, away)
      case Err(e) => Failed(e)
      case Ok(row) =>
        match ResultMap(b.classifier(row))
        case Err(e) => Failed(e)
        case Ok(o) => Predicted(o)
  }

  /** Identical teams leave the prediction blank, whatever the model, encoders and history. */
  lemma IdenticalTeamsBlank(b1: Bundle, b2: Bundle, f1: Frame, f2: Frame, team: string)
    requires HasTeamColumns(f1) && HasTeamColumns(f2)
    ensures Predict(b1, f1, team, team) == Predict(b2, f2, team, team) == Blank
  {
  }

  /** An outcome is shown exactly when the teams differ, both names are known, both averages
      exist and the classifier answers 0, 1 or 2 on the assembled row; the outcome is that
      answer read through the result map. Otherwise, for different teams, the page shows the
      error from the first step that failed: the home name, the away name, the home averages,
      the away averages, the classifier's answer. */
  lemma PredictSpec(b: Bundle, f: Frame, home: string, away: string)
    requires HasTeamColumns(f)
    ensures var p, r := Predict(b, f, home, away), Features(b, f, home, away);
      && (p.Blank? <==> home == away)
      && (p.Predicted? <==>
            home != away && r.Ok? && 0 <= b.classifier(r.value) <= 2)
      && (p.Predicted? ==> ResultMap(b.classifier(r.value)) == Ok(p.outcome))
      && (home != away && home !in b.homeEncoder.classes ==> p == Failed(UnseenLabel(home)))
      && (home != away && home in b.homeEncoder.classes && away !in b.awayEncoder.classes ==>
            p == Failed(UnseenLabel(away)))
      && (home != away && home in b.homeEncoder.classes && away in b.awayEncoder.classes ==>
            match RecentAverages(f, home, true)
            case Err(e) => p == Failed(e)
            case Ok(_) =>
              match RecentAverages(f, away, false)
              case Err(e) => p == Failed(e)
              case Ok(_) => r.Ok? && (p.Predicted? || p == Failed(UnknownLabel(b.classifier(r.value)))))
  {
    FeaturesNeverMisshapen(b, f, home, away);
  }

  /** For different, known teams where the home team has no home match, or the home averages
      exist and the away team has no away match, the page shows the NoData error rather than a
      prediction from zeros, provided the history has one of the statistics. */
  lemma EmptyWindowIsError(b: Bundle, f: Frame, home: string, away: string)
    requires HasTeamColumns(f) && home != away
    requires home in b.homeEncoder.classes && away in b.awayEncoder.classes
    requires Window(f, home, true) == [] ||
      (RecentAverages(f, home, true).Ok? && Window(f, away, false) == [])
    requires exists c | c in StatCols :: c in f.columns
    ensures Predict(b, f, home, away) == Failed(NoData)
  {
    var hs, aws := RecentAverages(f, home, true), RecentAverages(f, away, false);
    assert Transform(b.homeEncoder, home).Ok? && Transform(b.awayEncoder, away).Ok?;
    if Window(f, home, true) == [] {
      NoHistoryFails(f, home, true);
      assert Features(b, f, home, away) == Err(NoData);
    } else {
      NoHistoryFails(f, away, false);
      assert Features(b, f, home, away) == Err(NoData);
    }
  }

  /** The history's team columns hold names in every row (`sorted` fails otherwise). */
  predicate TeamNames(f: Frame) {
    && HasTeamColumns(f)
    && (forall r: Row | r in f.rows :: r[IndexOf(f.columns, "HomeTeam")].Str? && r[IndexOf(f.columns, "AwayTeam")].Str?)
  }

  /** The team drop-down: every name from either team column, once, in sorted order. */
  function Teams(f: Frame): (t: seq<string>)
    requires TeamNames(f)
    ensures StrictlySorted(t)
    ensures forall n :: n in t <==> exists r | r in f.rows ::
      r[IndexOf(f.columns, "HomeTeam")] == Str(n) || r[IndexOf(f.columns, "AwayTeam")] == Str(n)
  {
    var homes, aways := Column(f, "HomeTeam"), Column(f, "AwayTeam");
    forall c | c in homes ensures c.Str? { ColumnMembers(f, "HomeTeam", c); }
    forall c | c in aways ensures c.Str? { ColumnMembers(f, "AwayTeam", c); }
    var names := NamesOf(homes) + NamesOf(aways);
    forall n ensures n in names <==> Str(n) in homes || Str(n) in aways {
    }
    forall n ensures Str(n) in homes || Str(n) in aways <==> exists r | r in f.rows ::
      r[IndexOf(f.columns, "HomeTeam")] == Str(n) || r[IndexOf(f.columns, "AwayTeam")] == Str(n)
    {
      ColumnMembers(f, "HomeTeam", Str(n));
      ColumnMembers(f, "AwayTeam", Str(n));
    }
    SortedDistinct(names)
  }

  datatype Request = Get | Post(home: string, away: string)

  /** The page: the team list and, for a submitted form, the prediction. */
  datatype Page = Page(teams: seq<string>, prediction: Prediction)

  /** `index`: the drop-down lists each team name of the history once, in sorted order; a GET
      or a submission of the same team twice shows no prediction, a submission of two teams
      shows the prediction for them. */
  function Index(b: Bundle, f: Frame, req: Request): (p: Page)
    requires TeamNames(f)
    ensures StrictlySorted(p.teams)
    ensures forall n :: n in p.teams <==> exists r | r in f.rows ::
      r[IndexOf(f.columns, "HomeTeam")] == Str(n) || r[IndexOf(f.columns, "AwayTeam")] == Str(n)
    ensures req.Get? ==> p.prediction == Blank
    ensures req.Post? && req.home == req.away ==> p.prediction == Blank
    ensures req.Post? && req.home != req.away ==> p.prediction == Predict(b, f, req.home, req.away)
  {
    Page(Teams(f), match req case Get => Blank case Post(home, away) => Predict(b, f, home, away))
  }
}
