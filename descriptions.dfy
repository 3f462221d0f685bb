/**
 * getDescription: the requested fields of one package, as an object in JSON
 * mode and as one separator-joined line otherwise.
 */
module Descriptions {
  import opened Wrappers
  import opened Strings
  import opened OrderedMaps
  import opened Packages

  /** The chalk style a value is given; `Plain` when it is left unstyled. */
  datatype Colour = Plain | Red | Yellow | Green | Magenta

  /** A field value with the colour chosen for it. Rendering keeps the text alone. */
  datatype Styled = Styled(colour: Colour, text: string)

  /**
   * What getDescription and its callers read from the command-line globals:
   * the field list, the separator, JSON mode, missing-only mode and the
   * highlight pattern, given here as the predicate its `test` computes.
   */
  datatype Settings = Settings(
    fields: seq<string>,
    sep: string,
    json: bool,
    missingOnly: bool,
    highlight: Option<string -> bool>)

  /** The output object (JSON mode) or the joined line. */
  datatype Description = Record(entries: seq<(string, string)>) | Line(text: string)

  const Unknown := "UNKNOWN"
  const NodeModules := "/node_modules/"
  const Abbreviation := " ~ "

  /** The `name@version` of each direct dependency, in order. */
  function DepKeys(ds: seq<Package>): seq<string>
  {
    seq(|ds|, i requires 0 <= i < |ds| => NameVersion(ds[i]))
  }

  /** The `license` field. */
  function LicenseLabel(p: Package, highlight: Option<string -> bool>): Styled
  {
    if !HasLicenseFile(p) then Styled(Red, "unknown")
    else if p.license == NoMatch then Styled(Yellow, "unmatched")
    else if highlight.Some? && highlight.value(p.license) then Styled(Magenta, p.license)
    else Styled(Green, p.license)
  }

  /** The `licensefile` field, or with `simple` the `simplelicensefile` field. */
  function LicenseFileLabel(p: Package, simple: bool): Styled
  {
    if !HasLicenseFile(p) then Styled(Red, "no license found")
    else
      var file := if simple then ReplaceAll(p.licenseFile.value, NodeModules, Abbreviation)
                  else p.licenseFile.value;
      if p.license == NoMatch then Styled(Yellow, file) else Styled(Plain, file)
  }

  /** Any other field: the manifest's string value, or "UNKNOWN". */
  function ManifestLabel(p: Package, field: string): Styled
  {
    if field in p.manifest && p.manifest[field].Text? then Styled(Plain, p.manifest[field].text)
    else Styled(Plain, Unknown)
  }

  predicate BuiltIn(field: string)
  {
    field in ["name", "version", "nameversion", "dependencies", "license", "licensefile", "simplelicensefile"]
  }

  /** The output key a field writes: both license-file fields write `licensefile`. */
  function OutputKey(field: string): string
  {
    if field == "simplelicensefile" then "licensefile" else field
  }

  /** The value one requested field gives. */
  function FieldValue(p: Package, field: string, highlight: Option<string -> bool>): Styled
  {
    if field == "name" then Styled(Plain, p.name)
    else if field == "version" then Styled(Plain, p.version)
    else if field == "nameversion" then Styled(Plain, NameVersion(p))
    else if field == "dependencies" then Styled(Plain, Join(DepKeys(p.deps), ","))
    else if field == "license" then LicenseLabel(p, highlight)
    else if field == "licensefile" || field == "simplelicensefile" then
      LicenseFileLabel(p, field == "simplelicensefile")
    else ManifestLabel(p, field)
  }

  /** The output key of each requested field, in order. */
  function OutputKeys(fields: seq<string>): seq<string>
  {
    seq(|fields|, i requires 0 <= i < |fields| => OutputKey(fields[i]))
  }

  /** The assignment each requested field makes to the output object, in order. */
  function FieldWrites(p: Package, fields: seq<string>, highlight: Option<string -> bool>): seq<(string, Styled)>
  {
    seq(|fields|, i requires 0 <= i < |fields| => (OutputKey(fields[i]), FieldValue(p, fields[i], highlight)))
  }

  /** The output object once every requested field has been written. */
  function Output(p: Package, fields: seq<string>, highlight: Option<string -> bool>): seq<(string, Styled)>
  {
    PutAll([], FieldWrites(p, fields, highlight))
  }

  /** Colour is rendered as the identity: only the text remains. */
  function Texts(es: seq<(string, Styled)>): seq<string>
  {
    seq(|es|, i requires 0 <= i < |es| => es[i].1.text)
  }

  function Unstyled(es: seq<(string, Styled)>): seq<(string, string)>
  {
    seq(|es|, i requires 0 <= i < |es| => (es[i].0, es[i].1.text))
  }

  /** The description getDescription returns. */
  function Describe(p: Package, s: Settings): Description
  {
    var out := Output(p, s.fields, s.highlight);
    if s.json then Record(Unstyled(out)) else Line(Join(Texts(out), s.sep))
  }

  /** JavaScript truthiness of a description: only the empty line is falsy. */
  predicate Truthy(d: Description)
  {
    d.Record? || d.text != ""
  }

  /** getDescription: fill the output object field by field, then join its values. */
  method GetDescription(p: Package, s: Settings) returns (d: Description)
    ensures d == Describe(p, s)
  {
    var output := WriteFields(p, s.fields, s.highlight);
    if s.json {
      return Record(Unstyled(output));
    }
    var outputArr := CollectValues(output);
    d := Line(Join(outputArr, s.sep));
  }

  /** The `forEach` over the fields: each one assigns its key of the output object. */
  method WriteFields(p: Package, fields: seq<string>, highlight: Option<string -> bool>)
    returns (output: seq<(string, Styled)>)
    ensures output == Output(p, fields, highlight)
  {
    output := [];
    ghost var writes := FieldWrites(p, fields, highlight);
    for i := 0 to |fields|
      invariant output == PutAll([], writes[..i])
    {
      var field := fields[i];
      var key, value := OutputKey(field), FieldValue(p, field, highlight);
      assert writes[i] == (key, value);
      PutAllStep([], writes, i);
      output := Put(output, key, value);
    }
    assert writes[..|fields|] == writes;
  }

  /** The `for ... in` loop: the output object's values in key order. */
  method CollectValues(output: seq<(string, Styled)>) returns (outputArr: seq<string>)
    ensures outputArr == Texts(output)
  {
    outputArr := [];
    for j := 0 to |output|
      invariant outputArr == Texts(output[..j])
    {
      outputArr := outputArr + [output[j].1.text];
    }
    assert output[..|output|] == output;
  }

  /**
   * The `license` field flags exactly the missing packages (red "unknown" or
   * yellow "unmatched") and otherwise shows the license unchanged, magenta when
   * the highlight pattern matches it.
   */
  lemma LicenseFieldFlagsMissing(p: Package, h: Option<string -> bool>)
    ensures var v := FieldValue(p, "license", h);
      && (IsMissing(p) <==> v.colour in {Red, Yellow})
      && (IsMissing(p) ==> v.text == if HasLicenseFile(p) then "unmatched" else "unknown")
      && (!IsMissing(p) ==> v.text == p.license && (v.colour == Magenta <==> h.Some? && h.value(p.license)))
  {
  }

  /**
   * `licensefile` and `simplelicensefile` both write the `licensefile` key:
   * "no license found" without a file; otherwise the path as found, or with
   * every "/node_modules/" abbreviated so that none is left.
   */
  lemma LicenseFileFields(p: Package, h: Option<string -> bool>)
    ensures OutputKey("licensefile") == OutputKey("simplelicensefile") == "licensefile"
    ensures var full := FieldValue(p, "licensefile", h);
      var simple := FieldValue(p, "simplelicensefile", h);
      && (!HasLicenseFile(p) ==> full.text == simple.text == "no license found")
      && (HasLicenseFile(p) ==> full.text == p.licenseFile.value && !Occurs(simple.text, NodeModules))
      && (HasLicenseFile(p) && !Occurs(p.licenseFile.value, NodeModules) ==> simple.text == full.text)
      && (IsMissing(p) <==> full.colour in {Red, Yellow})
      && simple.colour == full.colour
  {
    if HasLicenseFile(p) {
      var path := p.licenseFile.value;
      assert forall i :: 0 <= i < |Abbreviation| ==> Abbreviation[i] !in NodeModules;
      ReplaceAllRemoves(path, NodeModules, Abbreviation);
      if !Occurs(path, NodeModules) {
        ReplaceAllAbsent(path, NodeModules, Abbreviation);
      }
    }
  }

  /**
   * `simplelicensefile` puts " ~ " in place of the leftmost "/node_modules/" of
   * the path and abbreviates the rest the same way; the rest is kept as it is
   * when it holds no further "/node_modules/".
   */
  lemma SimpleLicenseFileAbbreviates(p: Package, h: Option<string -> bool>, a: string, b: string)
    requires p.licenseFile == Some(a + NodeModules + b)
    requires forall i :: 0 <= i < |a| ==> !OccursAt(a + NodeModules + b, NodeModules, i)
    ensures FieldValue(p, "simplelicensefile", h).text ==
            a + Abbreviation + ReplaceAll(b, NodeModules, Abbreviation)
    ensures !Occurs(b, NodeModules) ==> FieldValue(p, "simplelicensefile", h).text == a + Abbreviation + b
  {
    ReplaceAllLeftmost(a, NodeModules, b, Abbreviation);
    if !Occurs(b, NodeModules) {
      ReplaceAllAbsent(b, NodeModules, Abbreviation);
    }
  }

  /** `nameversion` is `name`, "@" and `version`. */
  lemma NameVersionField(p: Package, h: Option<string -> bool>)
    ensures FieldValue(p, "nameversion", h).text ==
            FieldValue(p, "name", h).text + "@" + FieldValue(p, "version", h).text
  {
  }

  /**
   * `dependencies` lists the direct dependencies' `name@version` in order:
   * splitting it at the commas gives them back.
   */
  lemma DependenciesFieldSplits(p: Package, h: Option<string -> bool>)
    requires forall i :: 0 <= i < |p.deps| ==> ',' !in NameVersion(p.deps[i])
    ensures |p.deps| == 0 ==> FieldValue(p, "dependencies", h).text == ""
    ensures |p.deps| > 0 ==> Split(FieldValue(p, "dependencies", h).text, ',') == DepKeys(p.deps)
  {
    if |p.deps| > 0 {
      SplitJoin(DepKeys(p.deps), ',');
    }
  }

  /** A field that is not built in writes its own key: the manifest string, or "UNKNOWN". */
  lemma ManifestFieldValue(p: Package, field: string, h: Option<string -> bool>)
    requires !BuiltIn(field)
    ensures OutputKey(field) == field
    ensures FieldValue(p, field, h) ==
            if field in p.manifest && p.manifest[field].Text? then Styled(Plain, p.manifest[field].text)
            else Styled(Plain, Unknown)
  {
  }

  /** The output keys are the fields' keys in order of first writing, each once. */
  lemma {:induction false} OutputKeyOrder(p: Package, fields: seq<string>, h: Option<string -> bool>)
    ensures Keys(Output(p, fields, h)) == Dedup(OutputKeys(fields))
    ensures forall i, j :: 0 <= i < j < |Output(p, fields, h)| ==>
              Output(p, fields, h)[i].0 != Output(p, fields, h)[j].0
  {
    var writes := FieldWrites(p, fields, h);
    PutAllKeys(writes);
    WriteKeys(p, fields, h);
    DedupDistinct(OutputKeys(fields));
    var out := Output(p, fields, h);
    forall i, j | 0 <= i < j < |out| ensures out[i].0 != out[j].0 {
      assert Keys(out)[i] == out[i].0 && Keys(out)[j] == out[j].0;
    }
  }

  /** A key is in the output exactly when some requested field writes it. */
  lemma {:induction false} OutputHasKey(p: Package, fields: seq<string>, h: Option<string -> bool>, k: string)
    ensures Lookup(Output(p, fields, h), k).Some? <==> k in OutputKeys(fields)
  {
    var writes := FieldWrites(p, fields, h);
    PutAllLookup([], writes, k);
    LastValueFound(writes, k);
    WriteKeys(p, fields, h);
  }

  lemma WriteKeys(p: Package, fields: seq<string>, h: Option<string -> bool>)
    ensures Keys(FieldWrites(p, fields, h)) == OutputKeys(fields)
  {
  }

  /** A key holds the value of the last field that writes it. */
  lemma {:induction false} LastFieldWins(p: Package, fields: seq<string>, h: Option<string -> bool>, j: nat)
    requires j < |fields|
    requires forall j' :: j < j' < |fields| ==> OutputKey(fields[j']) != OutputKey(fields[j])
    ensures Lookup(Output(p, fields, h), OutputKey(fields[j])) == Some(FieldValue(p, fields[j], h))
  {
    var writes := FieldWrites(p, fields, h);
    PutAllLookup([], writes, OutputKey(fields[j]));
    LastValueAt(writes, j);
  }

  /**
   * Outside JSON mode the line is the output values joined by the separator:
   * when no value contains a one-character separator, splitting the line gives
   * the values back, one per distinct output key.
   */
  lemma {:induction false} LineSplitsIntoValues(p: Package, s: Settings)
    requires !s.json && |s.sep| == 1 && |s.fields| > 0
    requires forall i :: 0 <= i < |s.fields| ==> s.sep[0] !in FieldValue(p, s.fields[i], s.highlight).text
    ensures Describe(p, s).Line?
    ensures Split(Describe(p, s).text, s.sep[0]) == Texts(Output(p, s.fields, s.highlight))
    ensures |Split(Describe(p, s).text, s.sep[0])| == |Dedup(OutputKeys(s.fields))|
  {
    var writes := FieldWrites(p, s.fields, s.highlight);
    var out := Output(p, s.fields, s.highlight);
    var texts := Texts(out);
    PutAllFrom(writes);
    forall i | 0 <= i < |texts| ensures s.sep[0] !in texts[i] {
      assert out[i] in writes;
      var j :| 0 <= j < |writes| && writes[j] == out[i];
    }
    OutputKeyOrder(p, s.fields, s.highlight);
    assert |Keys(out)| == |out|;
    assert s.sep == [s.sep[0]];
    SplitJoin(texts, s.sep[0]);
  }

  /** In JSON mode the description is the output object, one entry per distinct output key. */
  lemma {:induction false} RecordKeys(p: Package, s: Settings)
    requires s.json
    ensures Describe(p, s).Record?
    ensures Keys(Describe(p, s).entries) == Dedup(OutputKeys(s.fields))
  {
    OutputKeyOrder(p, s.fields, s.highlight);
    var out := Output(p, s.fields, s.highlight);
    assert Keys(Unstyled(out)) == Keys(out);
  }
}
