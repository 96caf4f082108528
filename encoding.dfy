/** A label encoder as scikit-learn's LabelEncoder behaves: fitting records the distinct names
    in sorted order, and a name's code is its position in that list. */
module Encoding {
  import opened Results
  import opened Frames
  import opened Names

  datatype LabelEncoder = LabelEncoder(classes: seq<string>)

  /** `fit`: the classes are the sorted distinct names seen. */
  function Fit(names: seq<string>): (e: LabelEncoder)
    ensures StrictlySorted(e.classes)
    ensures forall y :: y in e.classes <==> y in names
    ensures |e.classes| == |set y | y in names|
  {
    SortedDistinctCount(names);
    LabelEncoder(SortedDistinct(names))
  }

  /** `transform` of one name: its position among the classes; an unseen name is an error. */
  function Transform(e: LabelEncoder, name: string): (r: Result<nat>)
    ensures r.Ok? <==> name in e.classes
    ensures r.Err? ==> r.error == UnseenLabel(name)
    ensures r.Ok? ==> r.value < |e.classes| && e.classes[r.value] == name
  {
    if name in e.classes then Ok(IndexOf(e.classes, name)) else Err(UnseenLabel(name))
  }

  /** `fit_transform`: fit on the names, then give each name its code. */
  function FitTransform(names: seq<string>): (LabelEncoder, seq<nat>) {
    var e := Fit(names);
    (e, seq(|names|, i requires 0 <= i < |names| => Transform(e, names[i]).value))
  }

  /** Every code lies below the number of distinct names and decodes back to its name, so equal
      names share a code and different names get different codes; transforming a fitted name
      later yields the same code. */
  lemma FitTransformCodes(names: seq<string>)
    ensures var (e, codes) := FitTransform(names);
      && |codes| == |names|
      && |e.classes| == |set y | y in names|
      && (forall i | 0 <= i < |names| :: codes[i] < |e.classes| && e.classes[codes[i]] == names[i])
      && (forall i | 0 <= i < |names| :: Transform(e, names[i]) == Ok(codes[i]))
      && (forall i, j | 0 <= i < |names| && 0 <= j < |names| :: names[i] == names[j] <==> codes[i] == codes[j])
  {
  }

  /** On an encoder whose classes are sorted without repeats, `transform` inverts the class
      lookup: the name at position `code` transforms back to `code`. */
  lemma TransformInverts(e: LabelEncoder, code: nat)
    requires StrictlySorted(e.classes) && code < |e.classes|
    ensures Transform(e, e.classes[code]) == Ok(code)
  {
    SortedDistinctEntries(e.classes, code, Transform(e, e.classes[code]).value);
  }

  /** On a fitted encoder, a name is accepted exactly when it was among the fitted names. */
  lemma TransformFitted(names: seq<string>, name: string)
    ensures Transform(Fit(names), name).Ok? <==> name in names
  {
  }

  /** Encoders fitted on different columns are independent: here the same name gets code 1 from
      one and code 0 from the other. */
  lemma IndependentEncoders()
    ensures Transform(Fit(["Arsenal", "Burnley"]), "Burnley") == Ok(1)
    ensures Transform(Fit(["Burnley", "Chelsea"]), "Burnley") == Ok(0)
  {
    var e1 := Fit(["Arsenal", "Burnley"]);
    assert Below("Arsenal", "Burnley");
    SortedUnique(e1.classes, ["Arsenal", "Burnley"]);
    var e2 := Fit(["Burnley", "Chelsea"]);
    assert Below("Burnley", "Chelsea");
    SortedUnique(e2.classes, ["Burnley", "Chelsea"]);
  }
}
