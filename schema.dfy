/** The input schema of a dynamic tool: one field per parameter-map entry,
    numeric when a keyword occurs in its names, described by its original
    placeholder text with underscores turned into spaces. */
module Schema {
  import opened Options
  import opened Text
  import opened Params

  /** The keyword list that marks a parameter as numeric. */
  const NUMBER_KEYWORDS: seq<string> :=
    ["level", "port", "duration", "limit", "brightness", "state", "pid",
     "width", "height", "seconds", "ms", "dpi"]

  /** Some keyword of `ks` is a substring of `clean` or of `original`:
      `ks.some(k => clean.includes(k) || original.includes(k))`. */
  function AnyKeyword(ks: seq<string>, original: string, clean: string): (b: bool)
    ensures b <==> exists i :: 0 <= i < |ks| && (Contains(clean, ks[i]) || Contains(original, ks[i]))
  {
    if ks == [] then false
    else if Includes(clean, ks[0]) || Includes(original, ks[0]) then true
    else
      var rest := AnyKeyword(ks[1..], original, clean);
      assert forall i :: 1 <= i < |ks| ==> ks[i] == ks[1..][i - 1];
      rest
  }

  /** `isNumber` for one entry. */
  function IsNumber(e: Param): bool {
    AnyKeyword(NUMBER_KEYWORDS, e.original, e.clean)
  }

  datatype Kind = Numeric | Textual

  /** A field of the schema: `z.number()` or `z.string()`, with its description. */
  datatype Field = Field(kind: Kind, description: string)

  /** `original.replace(/_/g, ' ')`. */
  function Describe(original: string): (r: string)
    ensures |r| == |original|
    ensures forall k :: 0 <= k < |r| ==> r[k] != '_'
    ensures forall k :: 0 <= k < |r| ==>
              (original[k] == '_' ==> r[k] == ' ') && (original[k] != '_' ==> r[k] == original[k])
  {
    MapChars(original, UnderscoreToSpace)
  }

  /** The schema field built for one entry of the parameter map. */
  function FieldFor(e: Param): Field {
    Field(if IsNumber(e) then Numeric else Textual, Describe(e.original))
  }

  /** The shape after `paramMap.forEach` has visited the entries `m`, in order. */
  function ShapeOf(m: seq<Param>): map<string, Field>
    decreases |m|
  {
    if m == [] then map[] else ShapeOf(m[..|m| - 1])[m[|m| - 1].clean := FieldFor(m[|m| - 1])]
  }

  /** The schema has a field for each key of the map, and the field of a key is
      the one built from the last entry with that key. */
  lemma {:induction false} ShapeOfSpec(m: seq<Param>)
    ensures forall c :: c in ShapeOf(m) <==> KeyIndex(m, c).Some?
    ensures forall c :: c in ShapeOf(m) ==> ShapeOf(m)[c] == FieldFor(m[KeyIndex(m, c).value])
    decreases |m|
  {
    if m != [] {
      ShapeOfSpec(m[..|m| - 1]);
    }
  }

  /** `paramMap.forEach(({ original, clean }) => { shape[clean] = ... })`. */
  method BuildShape(m: seq<Param>) returns (shape: map<string, Field>)
    ensures shape == ShapeOf(m)
    ensures forall c :: c in shape <==> KeyIndex(m, c).Some?
    ensures forall c :: c in shape ==> shape[c] == FieldFor(m[KeyIndex(m, c).value])
  {
    shape := map[];
    for i := 0 to |m|
      invariant shape == ShapeOf(m[..i])
    {
      assert m[..i + 1][..i] == m[..i];
      shape := shape[m[i].clean := FieldFor(m[i])];
    }
    assert m[..|m|] == m;
    ShapeOfSpec(m);
  }

  /** For the map built from a prompt, every entry has its own field. */
  lemma ShapeOfParamMap(prompt: string)
    ensures forall i :: 0 <= i < |ParamMap(prompt)| ==>
              ParamMap(prompt)[i].clean in ShapeOf(ParamMap(prompt))
              && ShapeOf(ParamMap(prompt))[ParamMap(prompt)[i].clean] == FieldFor(ParamMap(prompt)[i])
    ensures forall c :: c in ShapeOf(ParamMap(prompt)) <==> HasKey(ParamMap(prompt), c)
  {
    var m := ParamMap(prompt);
    ParamMapWellFormed(prompt);
    ShapeOfSpec(m);
    forall i | 0 <= i < |m| ensures KeyIndex(m, m[i].clean) == Some(i) {
      var j := KeyIndex(m, m[i].clean);
      assert j.Some?;
      assert !(j.value < i) && !(i < j.value);
    }
  }

  /** `<items>` is numeric: the keyword `ms` occurs in it. */
  lemma ItemsIsNumeric(e: Param)
    requires e == Param("items", "items")
    ensures FieldFor(e).kind == Numeric
  {
    assert OccursAt(e.clean, NUMBER_KEYWORDS[10], 3);
  }
}
