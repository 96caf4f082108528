/** Data preparation of the trainer (model/train_model.py): keep the nineteen needed columns,
    drop incomplete rows, code the full-time result, label-encode both team columns, and split
    the features from the target. */
module Training {
  import opened Results
  import opened Frames
  import opened Names
  import opened Encoding

  /** `cols_to_keep`: team names, the sixteen statistics, and the full-time result. */
  const KeepColumns: seq<string> :=
    ["HomeTeam", "AwayTeam", "FTHG", "FTAG", "HTHG", "HTAG",
     "HS", "AS", "HST", "AST", "HF", "AF", "HC", "AC",
     "HY", "AY", "HR", "AR", "FTR"]

  lemma KeepColumnsDistinct()
    ensures Distinct(KeepColumns)
  {
  }

  /** The team columns lead and the result column closes the kept layout. */
  lemma KeepColumnsLayout()
    ensures Layout(KeepColumns)
  {
    KeepColumnsDistinct();
    LayoutAt(KeepColumns);
  }

  lemma LayoutAt(cols: seq<string>)
    requires Distinct(cols) && |cols| == 19
    requires cols[0] == "HomeTeam" && cols[1] == "AwayTeam" && cols[18] == "FTR"
    ensures Layout(cols)
  {
    IndexOfDistinct(cols, 0);
    IndexOfDistinct(cols, 1);
    IndexOfDistinct(cols, 18);
  }

  function Absent(df: Frame): string -> bool {
    c => c !in df.columns
  }

  /** `df[cols]`: the named columns in the given order; absent names raise a KeyError that
      lists them. */
  function Project(df: Frame, cols: seq<string>): (r: Result<Frame>)
    requires WellFormed(df) && Distinct(cols)
    ensures r.Ok? <==> forall c | c in cols :: c in df.columns
    ensures r.Err? ==> r.error == MissingColumns(Filter(cols, Absent(df)))
    ensures r.Ok? ==> WellFormed(r.value) && r.value.columns == cols && |r.value.rows| == |df.rows|
    ensures r.Ok? ==> forall i, j | 0 <= i < |df.rows| && 0 <= j < |cols| ::
      r.value.rows[i][j] == df.rows[i][IndexOf(df.columns, cols[j])]
  {
    NoneMissing(df, cols);
    var missing := Filter(cols, Absent(df));
    if missing != [] then Err(MissingColumns(missing))
    else
      SelectSpec(df, cols);
      Ok(Select(df, cols))
  }

  lemma NoneMissing(df: Frame, cols: seq<string>)
    ensures Filter(cols, Absent(df)) == [] <==> forall c | c in cols :: c in df.columns
  {
    FilterHits(cols, Absent(df));
    var h := Hits(cols, Absent(df));
    if h != [] {
      assert cols[h[0]] !in df.columns;
    } else {
      forall j | 0 <= j < |cols| ensures cols[j] in df.columns {
        assert j !in h;
      }
    }
  }

  function Select(df: Frame, cols: seq<string>): Frame
    requires WellFormed(df) && forall c | c in cols :: c in df.columns
  {
    Frame(cols, seq(|df.rows|, i requires 0 <= i < |df.rows| =>
      seq(|cols|, j requires 0 <= j < |cols| => df.rows[i][IndexOf(df.columns, cols[j])])))
  }

  lemma SelectSpec(df: Frame, cols: seq<string>)
    requires WellFormed(df) && Distinct(cols) && forall c | c in cols :: c in df.columns
    ensures var g := Select(df, cols);
      && WellFormed(g) && g.columns == cols && |g.rows| == |df.rows|
      && forall i, j | 0 <= i < |df.rows| && 0 <= j < |cols| ::
           g.rows[i][j] == df.rows[i][IndexOf(df.columns, cols[j])]
  {
    var g := Select(df, cols);
    forall r | r in g.rows ensures |r| == |cols| {
      var i :| 0 <= i < |g.rows| && g.rows[i] == r;
    }
  }

  /** A row with no missing cell. */
  predicate Complete(r: Row) {
    forall c | c in r :: !c.Missing?
  }

  /** `dropna()`: the complete rows, in order. */
  function DropNa(f: Frame): (g: Frame)
    ensures g.columns == f.columns
    ensures WellFormed(f) ==> WellFormed(g)
    ensures forall r | r in g.rows :: r in f.rows && Complete(r)
  {
    FilterSound(f.rows, Complete);
    Frame(f.columns, Filter(f.rows, Complete))
  }

  /** `outcome_map`: the result letters H, D, A become 0, 1, 2; anything else has no entry
      and becomes missing. */
  function OutcomeCode(c: Cell): (r: Cell)
    ensures r == Int(0) <==> c == Str("H")
    ensures r == Int(1) <==> c == Str("D")
    ensures r == Int(2) <==> c == Str("A")
    ensures r.Missing? <==> c !in {Str("H"), Str("D"), Str("A")}
  {
    match c
    case Str(s) => if s == "H" then Int(0) else if s == "D" then Int(1) else if s == "A" then Int(2) else Missing
    case _ => Missing
  }

  /** `df[name] = cells`: replaces one column and leaves every other cell alone. */
  function SetColumn(f: Frame, name: string, cells: seq<Cell>): (g: Frame)
    requires WellFormed(f) && name in f.columns && |cells| == |f.rows|
    ensures WellFormed(g) && g.columns == f.columns && |g.rows| == |f.rows|
    ensures forall i | 0 <= i < |g.rows| :: |g.rows[i]| == |f.columns|
    ensures forall i, j | 0 <= i < |f.rows| && 0 <= j < |f.columns| ::
      g.rows[i][j] == if j == IndexOf(f.columns, name) then cells[i] else f.rows[i][j]
  {
    var k := IndexOf(f.columns, name);
    RowWidths(f);
    var rows := seq(|f.rows|, i requires 0 <= i < |f.rows| => f.rows[i][k := cells[i]]);
    Frame(f.columns, rows)
  }

  /** `LabelEncoder().fit_transform(column)`: the fitted encoder and one code per cell. A
      column that does not hold only names is refused. */
  function EncodeTeams(cells: seq<Cell>, col: string): (r: Result<(LabelEncoder, seq<Cell>)>)
    ensures r.Ok? <==> forall c | c in cells :: c.Str?
    ensures r.Err? ==> r.error == NonStringTeam(col)
    ensures r.Ok? ==> var e, codes := r.value.0, r.value.1;
      && StrictlySorted(e.classes)
      && (forall n :: n in e.classes <==> Str(n) in cells)
      && |codes| == |cells|
      && forall i | 0 <= i < |cells| ::
           codes[i].Int? && 0 <= codes[i].i < |e.classes| && Str(e.classes[codes[i].i]) == cells[i]
  {
    if forall c | c in cells :: c.Str? then
      var names := NamesOf(cells);
      CellCodes(cells, names);
      Ok((FitTransform(names).0, AsCells(FitTransform(names).1)))
    else
      Err(NonStringTeam(col))
  }

  /** Codes as integer cells. */
  function AsCells(codes: seq<nat>): seq<Cell> {
    seq(|codes|, i requires 0 <= i < |codes| => Int(codes[i]))
  }

  /** The codes fitted on the names of a column, as cells, stand for that column's cells. */
  lemma CellCodes(cells: seq<Cell>, names: seq<string>)
    requires |names| == |cells| && forall i | 0 <= i < |cells| :: cells[i] == Str(names[i])
    requires forall n :: n in names <==> Str(n) in cells
    ensures var e, coded := FitTransform(names).0, AsCells(FitTransform(names).1);
      && StrictlySorted(e.classes)
      && (forall n :: n in e.classes <==> Str(n) in cells)
      && |coded| == |cells|
      && forall i | 0 <= i < |cells| ::
           coded[i].Int? && 0 <= coded[i].i < |e.classes| && Str(e.classes[coded[i].i]) == cells[i]
  {
    FitTransformCodes(names);
  }

  /** `df.drop(name, axis=1)`: removes one column. */
  function DropColumn(f: Frame, name: string): (g: Frame)
    requires WellFormed(f) && name in f.columns
    ensures var k := IndexOf(f.columns, name);
      && WellFormed(g)
      && g.columns == f.columns[..k] + f.columns[k + 1..]
      && |g.rows| == |f.rows|
      && forall i, j | 0 <= i < |f.rows| && 0 <= j < |g.columns| ::
           g.rows[i][j] == f.rows[i][if j < k then j else j + 1]
  {
    DropSpec(f, IndexOf(f.columns, name));
    Drop(f, IndexOf(f.columns, name))
  }

  function Drop(f: Frame, k: nat): Frame
    requires WellFormed(f) && k < |f.columns|
  {
    RowWidths(f);
    Frame(f.columns[..k] + f.columns[k + 1..],
      seq(|f.rows|, i requires 0 <= i < |f.rows| => f.rows[i][..k] + f.rows[i][k + 1..]))
  }

  lemma DropSpec(f: Frame, k: nat)
    requires WellFormed(f) && k < |f.columns|
    ensures var g := Drop(f, k);
      && WellFormed(g)
      && g.columns == f.columns[..k] + f.columns[k + 1..]
      && |g.rows| == |f.rows|
      && forall i, j | 0 <= i < |f.rows| && 0 <= j < |g.columns| ::
           g.rows[i][j] == f.rows[i][if j < k then j else j + 1]
  {
    RowWidths(f);
    DistinctWithout(f.columns, k);
    var g := Drop(f, k);
    forall r | r in g.rows ensures |r| == |g.columns| {
      var i :| 0 <= i < |g.rows| && g.rows[i] == r;
    }
  }

  /** `df['FTR'] = df['FTR'].map(outcome_map)`. */
  function MapResults(f: Frame): (g: Frame)
    requires WellFormed(f) && "FTR" in f.columns
    ensures WellFormed(g) && g.columns == f.columns && |g.rows| == |f.rows|
    ensures forall i | 0 <= i < |g.rows| :: |g.rows[i]| == |f.columns|
    ensures forall i, j | 0 <= i < |f.rows| && 0 <= j < |f.columns| ::
      g.rows[i][j] == if j == IndexOf(f.columns, "FTR") then OutcomeCode(f.rows[i][j]) else f.rows[i][j]
  {
    var results := Column(f, "FTR");
    SetColumn(f, "FTR", seq(|results|, i requires 0 <= i < |results| => OutcomeCode(results[i])))
  }

  /** `df[name] = LabelEncoder().fit_transform(df[name])`: the fitted encoder and the frame
      whose column `name` now holds each name's code. */
  function EncodeColumn(f: Frame, name: string): (r: Result<(LabelEncoder, Frame)>)
    requires WellFormed(f) && name in f.columns
    ensures r.Ok? <==> forall c | c in Column(f, name) :: c.Str?
    ensures r.Err? ==> r.error == NonStringTeam(name)
    ensures r.Ok? ==> WellFormed(r.value.1) && r.value.1.columns == f.columns && |r.value.1.rows| == |f.rows|
    ensures r.Ok? ==> forall i | 0 <= i < |f.rows| :: |r.value.1.rows[i]| == |f.columns|
  {
    var cells := Column(f, name);
    match EncodeTeams(cells, name)
    case Err(e) => Err(e)
    case Ok((e, codes)) => Ok((e, SetColumn(f, name, codes)))
  }

  /** The encoder's classes are the sorted distinct names of the column. */
  lemma EncodeColumnClasses(f: Frame, name: string, e: LabelEncoder, g: Frame)
    requires WellFormed(f) && name in f.columns && EncodeColumn(f, name) == Ok((e, g))
    ensures var k := IndexOf(f.columns, name);
      && StrictlySorted(e.classes)
      && forall n :: n in e.classes <==> exists i | 0 <= i < |f.rows| :: f.rows[i][k] == Str(n)
  {
    var cells := Column(f, name);
    var k := IndexOf(f.columns, name);
    assert EncodeTeams(cells, name).value.0 == e;
    forall i | 0 <= i < |f.rows| ensures k < |f.rows[i]| && cells[i] == f.rows[i][k] {
      assert f.rows[i] in f.rows;
    }
    ClassesOfCells(f, k, cells, e);
  }

  lemma ClassesOfCells(f: Frame, k: nat, cells: seq<Cell>, e: LabelEncoder)
    requires |cells| == |f.rows| && forall i | 0 <= i < |f.rows| :: k < |f.rows[i]| && cells[i] == f.rows[i][k]
    requires forall n :: n in e.classes <==> Str(n) in cells
    ensures forall n :: n in e.classes <==> exists i | 0 <= i < |f.rows| :: f.rows[i][k] == Str(n)
  {
    forall n ensures n in e.classes <==> exists i | 0 <= i < |f.rows| :: f.rows[i][k] == Str(n) {
      if Str(n) in cells {
        var i :| 0 <= i < |cells| && cells[i] == Str(n);
      }
    }
  }

  lemma SetCodes(f: Frame, name: string, e: LabelEncoder, codes: seq<Cell>)
    requires WellFormed(f) && name in f.columns && |codes| == |f.rows|
    requires forall i | 0 <= i < |f.rows| ::
      codes[i].Int? && 0 <= codes[i].i < |e.classes| && Str(e.classes[codes[i].i]) == Column(f, name)[i]
    ensures var g, k := SetColumn(f, name, codes), IndexOf(f.columns, name);
      && (forall i, j | 0 <= i < |f.rows| && 0 <= j < |f.columns| && j != k :: g.rows[i][j] == f.rows[i][j])
      && (forall i | 0 <= i < |f.rows| :: Decodes(e, g.rows[i][k], f.rows[i][k]))
  {
  }

  /** What the trainer returns: features X, target y and the two fitted encoders. */
  datatype Prepared = Prepared(x: Frame, y: seq<Cell>, homeEncoder: LabelEncoder, awayEncoder: LabelEncoder)

  /** `clean_and_prepare(df)`. */
  function CleanAndPrepare(df: Frame): Result<Prepared>
    requires WellFormed(df)
  {
    KeepColumnsDistinct();
    KeepColumnsLayout();
    ProjectAndPrepare(df, KeepColumns)
  }

  /** Projection on `cols` followed by the preparation steps. */
  function ProjectAndPrepare(df: Frame, cols: seq<string>): Result<Prepared>
    requires WellFormed(df) && Distinct(cols) && Layout(cols)
  {
    match Project(df, cols)
    case Err(e) => Err(e)
    case Ok(kept) => Prepare(kept)
  }

  /** The shape of the projected frame that the later steps rely on: nineteen columns, the two
      team columns first and the result last. */
  predicate Layout(cols: seq<string>) {
    && |cols| == 19
    && "HomeTeam" in cols && "AwayTeam" in cols && "FTR" in cols
    && IndexOf(cols, "HomeTeam") == 0 && IndexOf(cols, "AwayTeam") == 1 && IndexOf(cols, "FTR") == 18
  }

  /** The steps after the projection: drop incomplete rows, code the result, encode the home
      then the away column, and split off the target. */
  function Prepare(kept: Frame): Result<Prepared>
    requires WellFormed(kept) && Layout(kept.columns)
  {
    var coded := MapResults(DropNa(kept));
    match EncodeColumn(coded, "HomeTeam")
    case Err(e) => Err(e)
    case Ok((homeEncoder, withHome)) =>
      match EncodeColumn(withHome, "AwayTeam")
      case Err(e) => Err(e)
      case Ok((awayEncoder, encoded)) =>
        Ok(Prepared(DropColumn(encoded, "FTR"), Column(encoded, "FTR"), homeEncoder, awayEncoder))
  }

  /** The complete rows of the projected frame, in order: those the trainer learns from. */
  function CompleteRows(kept: Frame): (c: seq<Row>)
    requires WellFormed(kept)
    ensures forall r | r in c :: r in kept.rows && |r| == |kept.columns| && Complete(r)
    ensures c == DropNa(kept).rows
  {
    DropNa(kept).rows
  }

  /** Preparation unrolled: the two encodings, then the split. */
  lemma PrepareSteps(kept: Frame)
    requires WellFormed(kept) && Layout(kept.columns)
    ensures var home := EncodeColumn(MapResults(DropNa(kept)), "HomeTeam");
      && (home.Err? ==> Prepare(kept) == Err(home.error))
      && (home.Ok? ==>
            var away := EncodeColumn(home.value.1, "AwayTeam");
            && (away.Err? ==> Prepare(kept) == Err(away.error))
            && (away.Ok? ==>
                  Prepare(kept) == Ok(Prepared(DropColumn(away.value.1, "FTR"), Column(away.value.1, "FTR"),
                    home.value.0, away.value.0))))
  {
  }

  /** Row by row, `g` holds the complete rows `c` from column `from` on, with the result coded. */
  predicate Carried(g: Frame, c: seq<Row>, from: nat) {
    && |g.rows| == |c|
    && forall i | 0 <= i < |c| ::
         && |g.rows[i]| == 19 && |c[i]| == 19
         && (forall j | from <= j < 18 :: g.rows[i][j] == c[i][j])
         && g.rows[i][18] == OutcomeCode(c[i][18])
  }

  /** The cell `code` is a code of `e` that stands for the team name held in `name`. */
  predicate Decodes(e: LabelEncoder, code: Cell, name: Cell) {
    code.Int? && 0 <= code.i < |e.classes| && Str(e.classes[code.i]) == name
  }

  /** Row by row, column `k` of `g` holds the codes of `e` for the names in column `k` of `c`. */
  predicate TeamCoded(g: Frame, c: seq<Row>, e: LabelEncoder, k: nat) {
    && |g.rows| == |c|
    && forall i | 0 <= i < |c| :: k < |g.rows[i]| && k < |c[i]| && Decodes(e, g.rows[i][k], c[i][k])
  }

  /** Coding the result changes only the result column of the complete rows. */
  lemma CodedCarried(kept: Frame)
    requires WellFormed(kept) && Layout(kept.columns)
    ensures var coded := MapResults(DropNa(kept));
      WellFormed(coded) && coded.columns == kept.columns && Carried(coded, CompleteRows(kept), 0)
  {
    var c, d := CompleteRows(kept), DropNa(kept);
    var coded := MapResults(d);
    forall i | 0 <= i < |c|
      ensures |coded.rows[i]| == 19 && |c[i]| == 19
      ensures forall j | 0 <= j < 18 :: coded.rows[i][j] == c[i][j]
      ensures coded.rows[i][18] == OutcomeCode(c[i][18])
    {
      assert c[i] in c;
    }
  }

  /** A column that agrees with column `k` of the complete rows can be encoded exactly when every
      one of those cells holds a name. */
  lemma EncodableFrom(g: Frame, name: string, c: seq<Row>, k: nat)
    requires WellFormed(g) && name in g.columns && IndexOf(g.columns, name) == k && |g.rows| == |c|
    requires forall i | 0 <= i < |c| :: k < |g.rows[i]| && k < |c[i]| && g.rows[i][k] == c[i][k]
    ensures EncodeColumn(g, name).Ok? <==> forall i | 0 <= i < |c| :: c[i][k].Str?
  {
  }

  /** Encoding column `name` of `f` into `g` with `e` replaces each of its cells by the position
      of its name among the classes and leaves every other cell alone. */
  lemma EncodedCells(f: Frame, name: string, e: LabelEncoder, g: Frame)
    requires WellFormed(f) && name in f.columns && EncodeColumn(f, name) == Ok((e, g))
    ensures forall i | 0 <= i < |f.rows| :: |f.rows[i]| == |f.columns|
    ensures WellFormed(g) && g.columns == f.columns && |g.rows| == |f.rows|
    ensures forall i | 0 <= i < |g.rows| :: |g.rows[i]| == |f.columns|
    ensures var k := IndexOf(f.columns, name);
      && (forall i, j | 0 <= i < |f.rows| && 0 <= j < |f.columns| && j != k :: g.rows[i][j] == f.rows[i][j])
      && (forall i | 0 <= i < |f.rows| :: Decodes(e, g.rows[i][k], f.rows[i][k]))
  {
    RowWidths(f);
    match EncodeTeams(Column(f, name), name)
    case Ok((e', codes)) =>
      assert e' == e && g == SetColumn(f, name, codes);
      SetCodes(f, name, e, codes);
  }

  /** Encoding the home column replaces each home name by its code and keeps every other cell. */
  lemma HomeEncodedCarried(coded: Frame, he: LabelEncoder, withHome: Frame, c: seq<Row>)
    requires WellFormed(coded) && Layout(coded.columns) && Carried(coded, c, 0)
    requires EncodeColumn(coded, "HomeTeam") == Ok((he, withHome))
    ensures WellFormed(withHome) && withHome.columns == coded.columns
    ensures Carried(withHome, c, 1) && TeamCoded(withHome, c, he, 0)
  {
    EncodedCells(coded, "HomeTeam", he, withHome);
    HomeCarriedFrom(coded, he, withHome, c);
  }

  lemma HomeCarriedFrom(coded: Frame, he: LabelEncoder, withHome: Frame, c: seq<Row>)
    requires Carried(coded, c, 0)
    requires |withHome.rows| == |coded.rows| && forall i | 0 <= i < |withHome.rows| :: |withHome.rows[i]| == 19
    requires forall i, j | 0 <= i < |coded.rows| && 0 <= j < 19 && j != 0 :: withHome.rows[i][j] == coded.rows[i][j]
    requires forall i | 0 <= i < |coded.rows| :: Decodes(he, withHome.rows[i][0], coded.rows[i][0])
    ensures Carried(withHome, c, 1) && TeamCoded(withHome, c, he, 0)
  {
    forall i | 0 <= i < |c|
      ensures |withHome.rows[i]| == 19 && |c[i]| == 19
      ensures forall j | 1 <= j < 18 :: withHome.rows[i][j] == c[i][j]
      ensures withHome.rows[i][18] == OutcomeCode(c[i][18])
      ensures Decodes(he, withHome.rows[i][0], c[i][0])
    {
      assert coded.rows[i][0] == c[i][0];
    }
  }

  /** Encoding the away column replaces each away name by its code and keeps every other cell. */
  lemma AwayEncodedCarried(withHome: Frame, he: LabelEncoder, ae: LabelEncoder, encoded: Frame, c: seq<Row>)
    requires WellFormed(withHome) && Layout(withHome.columns)
    requires Carried(withHome, c, 1) && TeamCoded(withHome, c, he, 0)
    requires EncodeColumn(withHome, "AwayTeam") == Ok((ae, encoded))
    ensures WellFormed(encoded) && encoded.columns == withHome.columns
    ensures Carried(encoded, c, 2) && TeamCoded(encoded, c, he, 0) && TeamCoded(encoded, c, ae, 1)
  {
    EncodedCells(withHome, "AwayTeam", ae, encoded);
    AwayCarriedFrom(withHome, he, ae, encoded, c);
  }

  lemma AwayCarriedFrom(withHome: Frame, he: LabelEncoder, ae: LabelEncoder, encoded: Frame, c: seq<Row>)
    requires Carried(withHome, c, 1) && TeamCoded(withHome, c, he, 0)
    requires |encoded.rows| == |withHome.rows| && forall i | 0 <= i < |encoded.rows| :: |encoded.rows[i]| == 19
    requires forall i, j | 0 <= i < |withHome.rows| && 0 <= j < 19 && j != 1 :: encoded.rows[i][j] == withHome.rows[i][j]
    requires forall i | 0 <= i < |withHome.rows| :: Decodes(ae, encoded.rows[i][1], withHome.rows[i][1])
    ensures Carried(encoded, c, 2) && TeamCoded(encoded, c, he, 0) && TeamCoded(encoded, c, ae, 1)
  {
    forall i | 0 <= i < |c|
      ensures |encoded.rows[i]| == 19 && |c[i]| == 19
      ensures forall j | 2 <= j < 18 :: encoded.rows[i][j] == c[i][j]
      ensures encoded.rows[i][18] == OutcomeCode(c[i][18])
      ensures Decodes(he, encoded.rows[i][0], c[i][0]) && Decodes(ae, encoded.rows[i][1], c[i][1])
    {
      assert withHome.rows[i][1] == c[i][1];
    }
  }

  /** Row by row, X holds the team codes and the sixteen statistics of `c`, and y its coded result. */
  predicate TrainingRows(x: Frame, y: seq<Cell>, c: seq<Row>, he: LabelEncoder, ae: LabelEncoder) {
    && |x.rows| == |y| == |c|
    && TeamCoded(x, c, he, 0) && TeamCoded(x, c, ae, 1)
    && (forall i | 0 <= i < |c| :: |x.rows[i]| == 18 && |c[i]| == 19)
    && (forall i, j | 0 <= i < |c| && 2 <= j < 18 :: x.rows[i][j] == c[i][j])
    && (forall i | 0 <= i < |c| :: y[i] == OutcomeCode(c[i][18]))
  }

  /** Splitting off the result column: X keeps the eighteen feature columns, y the coded results. */
  lemma SplitCarried(encoded: Frame, he: LabelEncoder, ae: LabelEncoder, c: seq<Row>)
    requires WellFormed(encoded) && Layout(encoded.columns)
    requires Carried(encoded, c, 2) && TeamCoded(encoded, c, he, 0) && TeamCoded(encoded, c, ae, 1)
    ensures var x, y := DropColumn(encoded, "FTR"), Column(encoded, "FTR");
      && WellFormed(x) && x.columns == encoded.columns[..18] && |x.rows| == |y| == |c|
      && TrainingRows(x, y, c, he, ae)
  {
    var x, y := DropColumn(encoded, "FTR"), Column(encoded, "FTR");
    assert encoded.columns[..18] + encoded.columns[19..] == encoded.columns[..18];
    forall i | 0 <= i < |x.rows| ensures |x.rows[i]| == 18 {
      assert x.rows[i] in x.rows;
    }
    SplitFrom(encoded, he, ae, x, y, c);
  }

  lemma SplitFrom(encoded: Frame, he: LabelEncoder, ae: LabelEncoder, x: Frame, y: seq<Cell>, c: seq<Row>)
    requires Carried(encoded, c, 2) && TeamCoded(encoded, c, he, 0) && TeamCoded(encoded, c, ae, 1)
    requires |x.rows| == |encoded.rows| && |y| == |encoded.rows|
    requires forall i | 0 <= i < |x.rows| :: |x.rows[i]| == 18
    requires forall i, j | 0 <= i < |encoded.rows| && 0 <= j < 18 :: x.rows[i][j] == encoded.rows[i][j]
    requires forall i | 0 <= i < |encoded.rows| :: y[i] == encoded.rows[i][18]
    ensures TrainingRows(x, y, c, he, ae)
  {
  }

  /** Preparation fails only on a team column that does not hold names only, and the home column
      is checked first: an away-column failure means every complete row names its home team. */
  lemma PrepareErrors(kept: Frame)
    requires WellFormed(kept) && Layout(kept.columns)
    ensures Prepare(kept).Err? ==>
      Prepare(kept).error == NonStringTeam("HomeTeam") || Prepare(kept).error == NonStringTeam("AwayTeam")
    ensures Prepare(kept) == Err(NonStringTeam("AwayTeam")) ==>
      forall i | 0 <= i < |CompleteRows(kept)| :: CompleteRows(kept)[i][0].Str?
  {
    PrepareSteps(kept);
    HomeEncodable(kept);
  }

  /** The home column can be encoded exactly when every complete row names its home team. */
  lemma HomeEncodable(kept: Frame)
    requires WellFormed(kept) && Layout(kept.columns)
    ensures forall r | r in CompleteRows(kept) :: |r| == 19
    ensures EncodeColumn(MapResults(DropNa(kept)), "HomeTeam").Ok? <==>
      forall i | 0 <= i < |CompleteRows(kept)| :: CompleteRows(kept)[i][0].Str?
  {
    CodedCarried(kept);
    EncodableFrom(MapResults(DropNa(kept)), "HomeTeam", CompleteRows(kept), 0);
  }

  /** Preparation succeeds exactly when every complete row names its teams with text. */
  lemma PrepareOk(kept: Frame)
    requires WellFormed(kept) && Layout(kept.columns)
    ensures var c := CompleteRows(kept);
      Prepare(kept).Ok? <==> forall i | 0 <= i < |c| :: c[i][0].Str? && c[i][1].Str?
  {
    CodedCarried(kept);
    PrepareSteps(kept);
    EncodingsSucceed(MapResults(DropNa(kept)), CompleteRows(kept));
  }

  /** Both encodings of a frame carrying the complete rows succeed exactly when every one of
      those rows names its teams with text. */
  lemma EncodingsSucceed(coded: Frame, c: seq<Row>)
    requires WellFormed(coded) && Layout(coded.columns) && Carried(coded, c, 0)
    ensures var home := EncodeColumn(coded, "HomeTeam");
      (home.Ok? && EncodeColumn(home.value.1, "AwayTeam").Ok?) <==>
      forall i | 0 <= i < |c| :: c[i][0].Str? && c[i][1].Str?
  {
    EncodableFrom(coded, "HomeTeam", c, 0);
    var home := EncodeColumn(coded, "HomeTeam");
    if home.Ok? {
      var (he, withHome) := home.value;
      HomeEncodedCarried(coded, he, withHome, c);
      EncodableFrom(withHome, "AwayTeam", c, 1);
    }
  }

  /** Every row the trainer learns from is a complete row of the projected frame, in order: X
      holds the codes of its two team names and its sixteen statistics, y its coded result. */
  lemma PrepareRows(kept: Frame)
    requires WellFormed(kept) && Layout(kept.columns)
    requires Prepare(kept).Ok?
    ensures var p := Prepare(kept).value;
      && WellFormed(p.x) && p.x.columns == kept.columns[..18]
      && TrainingRows(p.x, p.y, CompleteRows(kept), p.homeEncoder, p.awayEncoder)
  {
    var c := CompleteRows(kept);
    var coded := MapResults(DropNa(kept));
    PrepareSteps(kept);
    CodedCarried(kept);
    var (he, withHome) := EncodeColumn(coded, "HomeTeam").value;
    HomeEncodedCarried(coded, he, withHome, c);
    var (ae, encoded) := EncodeColumn(withHome, "AwayTeam").value;
    AwayEncodedCarried(withHome, he, ae, encoded, c);
    SplitCarried(encoded, he, ae, c);
  }

  /** `e` is fitted on column `k` of the rows `c`: its classes are their distinct names, sorted. */
  ghost predicate FittedOn(e: LabelEncoder, c: seq<Row>, k: nat) {
    && StrictlySorted(e.classes)
    && forall n :: n in e.classes <==> exists i | 0 <= i < |c| :: k < |c[i]| && c[i][k] == Str(n)
  }

  /** Each encoder knows exactly the team names of its own column among the complete rows. */
  lemma PrepareEncoders(kept: Frame)
    requires WellFormed(kept) && Layout(kept.columns)
    requires Prepare(kept).Ok?
    ensures var p, c := Prepare(kept).value, CompleteRows(kept);
      FittedOn(p.homeEncoder, c, 0) && FittedOn(p.awayEncoder, c, 1)
  {
    var c := CompleteRows(kept);
    var coded := MapResults(DropNa(kept));
    PrepareSteps(kept);
    CodedCarried(kept);
    var (he, withHome) := EncodeColumn(coded, "HomeTeam").value;
    FittedFrom(coded, "HomeTeam", he, withHome, c, 0);
    HomeEncodedCarried(coded, he, withHome, c);
    var (ae, encoded) := EncodeColumn(withHome, "AwayTeam").value;
    FittedFrom(withHome, "AwayTeam", ae, encoded, c, 1);
  }

  /** An encoder fitted on a column that agrees with column `k` of `c` is fitted on `c`. */
  lemma FittedFrom(f: Frame, name: string, e: LabelEncoder, g: Frame, c: seq<Row>, k: nat)
    requires WellFormed(f) && name in f.columns && IndexOf(f.columns, name) == k
    requires EncodeColumn(f, name) == Ok((e, g))
    requires Carried(f, c, k) && k < 18
    ensures FittedOn(e, c, k)
  {
    EncodeColumnClasses(f, name, e, g);
    ClassesOfRows(f, c, e, k);
  }

  /** Classes read off column `k` of `f` are those of `c` when the two agree on that column. */
  lemma ClassesOfRows(f: Frame, c: seq<Row>, e: LabelEncoder, k: nat)
    requires |f.rows| == |c|
    requires forall i | 0 <= i < |c| :: k < |f.rows[i]| && k < |c[i]| && f.rows[i][k] == c[i][k]
    requires StrictlySorted(e.classes)
    requires forall n :: n in e.classes <==> exists i | 0 <= i < |f.rows| :: f.rows[i][k] == Str(n)
    ensures FittedOn(e, c, k)
  {
    forall n ensures n in e.classes <==> exists i | 0 <= i < |c| :: k < |c[i]| && c[i][k] == Str(n) {
      if n in e.classes {
        var i :| 0 <= i < |f.rows| && f.rows[i][k] == Str(n);
        assert k < |c[i]| && c[i][k] == Str(n);
      }
      if exists i | 0 <= i < |c| :: k < |c[i]| && c[i][k] == Str(n) {
        var i :| 0 <= i < |c| && k < |c[i]| && c[i][k] == Str(n);
        assert f.rows[i][k] == Str(n);
      }
    }
  }

  /** The complete rows of a projection are the input rows, in order, at the positions `h` where
      none of the projected cells is missing. */
  lemma ProjectedRows(df: Frame, cols: seq<string>, kept: Frame)
    requires WellFormed(df) && Distinct(cols) && Project(df, cols) == Ok(kept)
    ensures forall col | col in cols :: col in df.columns
    ensures var c, h := CompleteRows(kept), Hits(kept.rows, Complete);
      && |c| == |h| <= |df.rows| && Increasing(h)
      && (forall i | 0 <= i < |h| :: h[i] < |df.rows| && |c[i]| == |cols|)
      && (forall i, j | 0 <= i < |c| && 0 <= j < |cols| :: c[i][j] == df.rows[h[i]][IndexOf(df.columns, cols[j])])
      && (forall k | 0 <= k < |df.rows| :: k in h <==> CompleteIn(df, cols, k))
  {
    var c, h := CompleteRows(kept), Hits(kept.rows, Complete);
    FilterHits(kept.rows, Complete);
    assert c == Filter(kept.rows, Complete);
    forall i | 0 <= i < |h| ensures |c[i]| == |cols| {
      assert kept.rows[h[i]] in kept.rows;
    }
    forall k | 0 <= k < |df.rows|
      ensures Complete(kept.rows[k]) <==> forall j | 0 <= j < |cols| :: !df.rows[k][IndexOf(df.columns, cols[j])].Missing?
    {
      var r := kept.rows[k];
      assert r in kept.rows;
      if Complete(r) {
        forall j | 0 <= j < |cols| ensures !df.rows[k][IndexOf(df.columns, cols[j])].Missing? {
          assert r[j] in r;
        }
      } else {
        var x :| x in r && x.Missing?;
        var j :| 0 <= j < |r| && r[j] == x;
        assert df.rows[k][IndexOf(df.columns, cols[j])].Missing?;
      }
    }
  }

  /** Row `k` of the input has a value in each of the columns `cols`. */
  predicate CompleteIn(df: Frame, cols: seq<string>, k: nat)
    requires WellFormed(df) && k < |df.rows| && forall col | col in cols :: col in df.columns
  {
    forall j | 0 <= j < |cols| :: !df.rows[k][IndexOf(df.columns, cols[j])].Missing?
  }

  /** The complete rows name a team with text in column `a` exactly when every input row that is
      complete in the projected columns does. */
  lemma TextAt(df: Frame, cols: seq<string>, c: seq<Row>, h: seq<nat>, a: nat)
    requires WellFormed(df) && (forall col | col in cols :: col in df.columns) && a < |cols|
    requires |c| == |h| && forall i | 0 <= i < |h| :: h[i] < |df.rows| && |c[i]| == |cols|
    requires forall i | 0 <= i < |c| :: c[i][a] == df.rows[h[i]][IndexOf(df.columns, cols[a])]
    requires forall k | 0 <= k < |df.rows| :: k in h <==> CompleteIn(df, cols, k)
    ensures (forall i | 0 <= i < |c| :: c[i][a].Str?) <==>
      forall k | 0 <= k < |df.rows| && CompleteIn(df, cols, k) :: df.rows[k][IndexOf(df.columns, cols[a])].Str?
  {
    if forall i | 0 <= i < |c| :: c[i][a].Str? {
      forall k | 0 <= k < |df.rows| && CompleteIn(df, cols, k) ensures df.rows[k][IndexOf(df.columns, cols[a])].Str? {
        assert k in h;
        var i :| 0 <= i < |h| && h[i] == k;
        assert c[i][a].Str?;
      }
    }
  }

  /** `clean_and_prepare` unrolled: a failed projection is its error, otherwise the preparation. */
  lemma CleanAndPrepareSteps(df: Frame)
    requires WellFormed(df)
    ensures Distinct(KeepColumns) && Layout(KeepColumns)
    ensures CleanAndPrepare(df) == ProjectAndPrepare(df, KeepColumns)
  {
    KeepColumnsDistinct();
    KeepColumnsLayout();
  }

  /** The trainer fails listing the missing columns, or on the first team column that holds
      something other than a name: it reaches the away column only when all nineteen columns
      exist and every complete row names its home team. */
  lemma CleanAndPrepareErrors(df: Frame)
    requires WellFormed(df)
    ensures Layout(KeepColumns)
    ensures CleanAndPrepare(df) == Err(NonStringTeam("AwayTeam")) ==> NamedIn(df, KeepColumns, "HomeTeam")
    ensures CleanAndPrepare(df).Err? ==>
      || CleanAndPrepare(df).error == MissingColumns(Filter(KeepColumns, Absent(df)))
      || CleanAndPrepare(df).error == NonStringTeam("HomeTeam")
      || CleanAndPrepare(df).error == NonStringTeam("AwayTeam")
  {
    CleanAndPrepareSteps(df);
    ProjectAndPrepareErrors(df, KeepColumns);
  }

  /** For any column list of the kept layout, the pipeline fails listing the missing names or on a
      team column, the away column only once the home column is all names. */
  lemma ProjectAndPrepareErrors(df: Frame, cols: seq<string>)
    requires WellFormed(df) && Distinct(cols) && Layout(cols)
    ensures var r := ProjectAndPrepare(df, cols);
      r.Err? ==>
        || r.error == MissingColumns(Filter(cols, Absent(df)))
        || r.error == NonStringTeam("HomeTeam")
        || r.error == NonStringTeam("AwayTeam")
    ensures ProjectAndPrepare(df, cols) == Err(NonStringTeam("AwayTeam")) ==> NamedIn(df, cols, "HomeTeam")
  {
    var r := Project(df, cols);
    if r.Ok? {
      var kept := r.value;
      PrepareErrors(kept);
      ProjectedRows(df, cols, kept);
      assert cols[0] == "HomeTeam";
      TextAt(df, cols, CompleteRows(kept), Hits(kept.rows, Complete), 0);
    }
  }

  /** All names of `cols` are columns of `df`, and every row complete in them holds text in
      column `team`. */
  predicate NamedIn(df: Frame, cols: seq<string>, team: string)
    requires WellFormed(df) && team in cols
  {
    RowWidths(df);
    && (forall col | col in cols :: col in df.columns)
    && forall k | 0 <= k < |df.rows| && CompleteIn(df, cols, k) :: df.rows[k][IndexOf(df.columns, team)].Str?
  }

  /** All names of `cols` are columns of `df`, and every row complete in them names both teams
      with text. */
  predicate Trainable(df: Frame, cols: seq<string>)
    requires WellFormed(df) && Layout(cols)
  {
    RowWidths(df);
    && (forall col | col in cols :: col in df.columns)
    && forall k | 0 <= k < |df.rows| && CompleteIn(df, cols, k) ::
         df.rows[k][IndexOf(df.columns, "HomeTeam")].Str? && df.rows[k][IndexOf(df.columns, "AwayTeam")].Str?
  }

  /** The trainer succeeds exactly when all nineteen columns exist and every row that is complete
      in them names both teams with text. */
  lemma CleanAndPrepareOk(df: Frame)
    requires WellFormed(df)
    ensures Layout(KeepColumns)
    ensures CleanAndPrepare(df).Ok? <==> Trainable(df, KeepColumns)
  {
    CleanAndPrepareSteps(df);
    ProjectThenPrepare(df, KeepColumns);
  }

  /** For any column list of the kept layout, the pipeline succeeds exactly on trainable input. */
  lemma ProjectThenPrepare(df: Frame, cols: seq<string>)
    requires WellFormed(df) && Distinct(cols) && Layout(cols)
    ensures ProjectAndPrepare(df, cols).Ok? <==> Trainable(df, cols)
  {
    var r := Project(df, cols);
    if r.Ok? {
      PrepareOk(r.value);
      TeamsText(df, cols, r.value);
    }
  }

  /** The complete rows of a projection name both teams with text exactly when every input row
      complete in `cols` does. */
  lemma TeamsText(df: Frame, cols: seq<string>, kept: Frame)
    requires WellFormed(df) && Distinct(cols) && Layout(cols) && Project(df, cols) == Ok(kept)
    ensures forall col | col in cols :: col in df.columns
    ensures "HomeTeam" in df.columns && "AwayTeam" in df.columns
    ensures forall i | 0 <= i < |CompleteRows(kept)| :: |CompleteRows(kept)[i]| == 19
    ensures var c := CompleteRows(kept);
      (forall i | 0 <= i < |c| :: c[i][0].Str? && c[i][1].Str?) <==>
      forall k | 0 <= k < |df.rows| && CompleteIn(df, cols, k) ::
        df.rows[k][IndexOf(df.columns, "HomeTeam")].Str? && df.rows[k][IndexOf(df.columns, "AwayTeam")].Str?
  {
    var c, h := CompleteRows(kept), Hits(kept.rows, Complete);
    ProjectedRows(df, cols, kept);
    assert cols[0] == "HomeTeam" && cols[1] == "AwayTeam";
    TextAt(df, cols, c, h, 0);
    TextAt(df, cols, c, h, 1);
  }

  /** What the trainer learns from: X has the eighteen feature columns and, for each complete row of
      the projection in order (see `ProjectedRows` for where they sit in the input), the codes of
      its two team names and its sixteen statistics; y holds its coded result; each encoder knows
      exactly the names of its column among those rows; and no row is invented. */
  lemma CleanAndPrepareRows(df: Frame, kept: Frame)
    requires WellFormed(df) && Distinct(KeepColumns) && Project(df, KeepColumns) == Ok(kept)
    requires CleanAndPrepare(df).Ok?
    ensures var p, c := CleanAndPrepare(df).value, CompleteRows(kept);
      && WellFormed(p.x) && p.x.columns == KeepColumns[..18]
      && TrainingRows(p.x, p.y, c, p.homeEncoder, p.awayEncoder)
      && FittedOn(p.homeEncoder, c, 0) && FittedOn(p.awayEncoder, c, 1)
      && |p.x.rows| <= |df.rows|
  {
    CleanAndPrepareSteps(df);
    PrepareRows(kept);
    PrepareEncoders(kept);
    ProjectedRows(df, KeepColumns, kept);
  }
}
